/**
 * The Lua bundler's depth-first inliner (tools/luaknit.py:81-157) and the
 * alias-table construction of its entry point (tools/luaknit.py:171-192).
 * The global `modules` and `aliases` tables, the `seen` set and the output
 * list are fields of a `Bundler`; `sys.exit(1)` and a file that cannot be
 * opened end the run with an `Error`.
 */
module KnitBundle {
  import opened Outcomes
  import opened Text
  import opened KnitNames
  import opened KnitNormalize
  import opened KnitRequire
  import opened KnitResolve

  /** Why a run stops before writing its output. */
  datatype Error =
    | Unresolved(file: string, submodule: string)  // no candidate path exists: exit status 1
    | Unreadable(path: string)                     // open() of a path that is not a file
    | BadArgument(arg: string)                     // a `[MODNAME=]PATH` argument with two or more '='

  /** What `process` returns: the last line it emitted, or `None`. */
  datatype Status = Done(last: Option<string>) | Failed(err: Error)

  /** The line that opens a module's block. */
  function Header(symbol: string): string {
    symbol + "=(function()\n"
  }

  /** The line that closes a module's block and calls it. */
  const Footer := "end)()\n"

  /** The output ends with a block's closing line. */
  predicate Closed(out: seq<string>) {
    out != [] && out[|out| - 1] == Footer
  }

  /** The path `process` works on: a directory stands for its `init.lua`. */
  function Target(fs: FileSystem, filename: string): (p: string)
    ensures !IsDir(fs, filename) ==> p == filename
    ensures IsDir(fs, filename) && filename != [] && filename[|filename| - 1] != '/' ==> p == filename + "/init.lua"
  {
    if IsDir(fs, filename) then PathJoin(filename, "init.lua") else filename
  }

  /**
   * What a normalised line becomes in the output (tools/luaknit.py:141-150):
   * nothing for a bare static require, the rewritten line otherwise.
   */
  function Emitted(line: string, kind: LineKind, subsymbol: string): (r: Option<string>)
    ensures r.None? <==> kind.Static? && !IsAssigned(kind.req)
    ensures kind.Plain? ==> r == Some(line)
  {
    match kind
    case Static(req) => if IsAssigned(req) then Some(RewriteStatic(line, subsymbol)) else None
    case Dynamic(expr) => Some(RewriteDynamic(line, expr))
    case Plain => Some(line)
  }

  /** A bare `require 'x'` or `require('x')` line leaves nothing in the output. */
  lemma BareRequireDropped(n: nat, f: CallForm, q: char, name: string, subsymbol: string)
    requires IsQuote(q) && IsModuleName(name) && '=' !in name
    ensures var line := Spaces(n) + "require" + Opening(f) + Quoted(q, name) + Closing(f);
      Classify(line) == Static(StaticRequire(Spaces(n) + "require", name))
      && Emitted(line, Classify(line), subsymbol) == None
  {
    BareRequireIsStatic(n, f, q, name);
  }

  /** `lhs = require 'x'` is emitted as `lhs=<symbol>`. */
  lemma AssignedRequireEmitted(lhs: string, g1: nat, g2: nat, f: CallForm, q: char, name: string, symbol: string)
    requires IsQuote(q) && IsModuleName(name)
    requires lhs != [] && '=' !in lhs && lhs[|lhs| - 1] != ' '
    ensures var line := lhs + Spaces(g1) + "=" + Spaces(g2) + "require" + Opening(f) + Quoted(q, name) + Closing(f);
      Classify(line).Static? && Classify(line).req.submodule == name
      && Emitted(line, Classify(line), symbol) == Some(lhs + "=" + symbol)
  {
    AssignedRequireRewritten(lhs, g1, g2, f, q, name, symbol);
  }

  /** `lhs = require(expr)` is emitted as a run-time lookup of the block named by `expr`. */
  lemma DynamicRequireEmitted(lhs: string, g1: nat, g2: nat, g3: nat, expr: string, subsymbol: string)
    requires lhs != [] && '=' !in lhs && lhs[|lhs| - 1] != ' ' && NoQuote(lhs)
    requires IsDynamicExpr(expr)
    ensures var line := lhs + Spaces(g1) + "=" + Spaces(g2) + "require" + Spaces(g3) + "(" + expr + ")";
      Emitted(line, Classify(line), subsymbol) == Some(lhs + LoadExpr(expr))
  {
    DynamicRequireRewritten(lhs, g1, g2, g3, expr);
  }

  /** Symbols are the keys of the alias table, a Python dict: each occurs once. */
  predicate UniqueSymbols(table: seq<Alias>) {
    forall i, j :: 0 <= i < j < |table| ==> table[i].symbol != table[j].symbol
  }

  /** Position of `symbol` in the alias table, or its length. */
  function SymbolIndex(table: seq<Alias>, symbol: string): (k: nat)
    ensures k <= |table|
    ensures k < |table| ==> table[k].symbol == symbol
    ensures forall j :: 0 <= j < k ==> table[j].symbol != symbol
  {
    if table == [] then 0
    else if table[0].symbol == symbol then 0
    else 1 + SymbolIndex(table[1..], symbol)
  }

  /** aliases[symbol] = (path, module): an existing key keeps its place, a new one goes last. */
  function AliasTablePut(table: seq<Alias>, a: Alias): seq<Alias> {
    var k := SymbolIndex(table, a.symbol);
    if k < |table| then table[k := a] else table + [a]
  }

  /**
   * Putting an entry keeps the keys unique, makes the entry the one found
   * for its symbol, and leaves every other entry where it was.
   */
  lemma AliasTablePutSpec(table: seq<Alias>, a: Alias)
    requires UniqueSymbols(table)
    ensures var r := AliasTablePut(table, a);
      UniqueSymbols(r)
      && SymbolIndex(r, a.symbol) < |r| && r[SymbolIndex(r, a.symbol)] == a
      && |table| <= |r| <= |table| + 1
      && (forall i :: 0 <= i < |table| && table[i].symbol != a.symbol ==> r[i] == table[i])
  {
    var r := AliasTablePut(table, a);
    var k := SymbolIndex(table, a.symbol);
    assert k < |r| && r[k] == a;
    assert forall j :: 0 <= j < k ==> r[j] == table[j];
    assert SymbolIndex(r, a.symbol) == k;
  }

  /** A command-line file argument after parsing: its alias entry and whether it named a symbol. */
  datatype FileArg = FileArg(alias: Alias, named: bool)

  /** f.replace('.lua', '').replace('/', '.'), computed from the whole argument. */
  function ArgModule(arg: string): string {
    ReplaceChar(ReplaceAll(arg, ".lua", ""), '/', '.')
  }

  /**
   * One `[MODNAME=]PATH` argument (tools/luaknit.py:176-182). `None` is the
   * ValueError `f.split('=')` raises when there are two or more '='.
   */
  function ParseFileArg(arg: string): (r: Option<FileArg>)
    ensures r.Some? ==> r.value.alias.name == ArgModule(arg)
    ensures r.Some? && r.value.named ==>
      arg == r.value.alias.symbol + "=" + r.value.alias.path
      && '=' !in r.value.alias.symbol && '=' !in r.value.alias.path
    ensures r.Some? && !r.value.named ==>
      '=' !in arg && r.value.alias == Alias(Mangle(ArgModule(arg)), arg, ArgModule(arg))
  {
    var m := ArgModule(arg);
    var e := IndexFrom(arg, '=', 0);
    if e == |arg| then Some(FileArg(Alias(Mangle(m), arg, m), false))
    else if IndexFrom(arg, '=', e + 1) < |arg| then None
    else
      assert arg == arg[..e] + "=" + arg[e + 1..];
      Some(FileArg(Alias(arg[..e], arg[e + 1..], m), true))
  }

  /** An argument is refused exactly when it holds two '='. */
  lemma ParseFileArgFails(arg: string)
    ensures ParseFileArg(arg).None? <==> exists i, j :: 0 <= i < j < |arg| && arg[i] == '=' && arg[j] == '='
  {
    var e := IndexFrom(arg, '=', 0);
    if e < |arg| && IndexFrom(arg, '=', e + 1) < |arg| {
      assert arg[e] == '=' && arg[IndexFrom(arg, '=', e + 1)] == '=';
    }
  }

  /** The symbol of the last argument that named one (`return_symbol`); "" when there is none. */
  function ReturnSymbol(files: seq<string>): string {
    if files == [] then ""
    else match ParseFileArg(files[|files| - 1])
      case Some(p) => if p.named then p.alias.symbol else ReturnSymbol(files[..|files| - 1])
      case None => ReturnSymbol(files[..|files| - 1])
  }

  /** One more argument: a named one sets the return symbol, any other leaves it. */
  lemma ReturnSymbolStep(files: seq<string>, i: nat)
    requires i < |files| && ParseFileArg(files[i]).Some?
    ensures ReturnSymbol(files[..i + 1])
      == if ParseFileArg(files[i]).value.named then ParseFileArg(files[i]).value.alias.symbol else ReturnSymbol(files[..i])
  {
    assert files[..i + 1][..i] == files[..i];
  }

  /** The alias table after `aliases[symbol] = (f, module)` for every argument in order. */
  function AliasTableOf(table: seq<Alias>, files: seq<string>): seq<Alias>
    requires forall j :: 0 <= j < |files| ==> ParseFileArg(files[j]).Some?
  {
    if files == [] then table
    else AliasTablePut(AliasTableOf(table, files[..|files| - 1]), ParseFileArg(files[|files| - 1]).value.alias)
  }

  /** One more argument puts its alias entry into the table. */
  lemma AliasTableOfStep(table: seq<Alias>, files: seq<string>, i: nat)
    requires i < |files| && forall j :: 0 <= j <= i ==> ParseFileArg(files[j]).Some?
    ensures AliasTableOf(table, files[..i + 1]) == AliasTablePut(AliasTableOf(table, files[..i]), ParseFileArg(files[i]).value.alias)
  {
    assert files[..i + 1][..i] == files[..i];
  }

  /** The index of the first argument `f.split('=')` refuses, or `|files|` when there is none. */
  function FirstBad(files: seq<string>): (k: nat)
    ensures k <= |files|
    ensures forall j :: 0 <= j < k ==> ParseFileArg(files[j]).Some?
    ensures k < |files| ==> ParseFileArg(files[k]).None?
  {
    if files == [] || ParseFileArg(files[0]).None? then 0
    else
      var k := FirstBad(files[1..]);
      assert forall j :: 1 <= j < 1 + k ==> files[j] == files[1..][j - 1];
      1 + k
  }

  /** The top-of-file comment: `-- line\n` for each line, after `\n` escapes became newlines. */
  function CommentLines(comment: string): (r: seq<string>)
    ensures |r| == |SplitLines(ReplaceAll(comment, "\\n", "\n"))|
    ensures forall i :: 0 <= i < |r| ==> r[i] == "-- " + SplitLines(ReplaceAll(comment, "\\n", "\n"))[i] + "\n"
  {
    var lines := SplitLines(ReplaceAll(comment, "\\n", "\n"));
    seq(|lines|, i requires 0 <= i < |lines| => "-- " + lines[i] + "\n")
  }

  /** Every non-empty binding of `before` survives in `after`. */
  ghost predicate KeepsBindings(before: map<string, string>, after: map<string, string>) {
    forall k :: k in before && before[k] != "" ==> k in after && after[k] == before[k]
  }

  /** The module has a binding `modules.get` would find truthy. */
  predicate Bound(modules: map<string, string>, name: string) {
    name in modules && modules[name] != ""
  }

  /** What `process` reads and changes besides the alias table: `modules`, `seen` and the output list. */
  datatype State = State(modules: map<string, string>, seen: set<string>, out: seq<string>)

  /** The state after a step of `process`, and what the step returned. */
  datatype Step = Step(state: State, status: Status)

  /** The step that handles a static require's module, and the symbol its line is rewritten with. */
  datatype Required = Required(step: Step, subsymbol: string)

  /** `after` follows `before`: more paths seen, output only appended, every non-empty binding kept. */
  ghost predicate Extends(before: State, after: State) {
    before.seen <= after.seen && before.out <= after.out
    && before.modules.Keys <= after.modules.Keys && KeepsBindings(before.modules, after.modules)
  }

  lemma KeepsOwnBindings(m: map<string, string>)
    ensures KeepsBindings(m, m)
  {
  }

  lemma ExtendsTransitive(a: State, b: State, c: State)
    requires Extends(a, b) && Extends(b, c)
    ensures Extends(a, c)
  {
  }

  /** Rebinding a module that had no non-empty binding keeps every binding that had one. */
  lemma KeepsBindingsOfUnbound(m: map<string, string>, name: string, symbol: string, after: map<string, string>)
    requires !Bound(m, name) && KeepsBindings(m[name := symbol], after)
    ensures KeepsBindings(m, after)
  {
    forall k | k in m && m[k] != ""
      ensures k in after && after[k] == m[k]
    {
      assert k != name;
      assert m[name := symbol][k] == m[k];
    }
  }

  /**
   * process(filename, module, symbol, seen, out, last) on the state `s`
   * (tools/luaknit.py:81-157): a path already seen changes nothing and
   * returns None; any other is opened, and its block is written after the
   * output so far.
   */
  function ProcessSpec(fs: FileSystem, aliases: seq<Alias>, s: State, filename: string, name: string, symbol: string,
                       last: Option<string>): (r: Step)
    ensures s.seen <= r.state.seen && s.out <= r.state.out && s.modules.Keys <= r.state.modules.Keys
    ensures Target(fs, filename) in r.state.seen
    ensures r.status.Failed? ==> !r.status.err.BadArgument?
    ensures Target(fs, filename) in s.seen ==> r == Step(s, Done(None))
    ensures Target(fs, filename) !in s.seen ==>
      s.out + ConditionalNewline(last) + [Header(symbol)] <= r.state.out
      && KeepsBindings(s.modules[name := symbol], r.state.modules)
      && (r.status.Done? ==> Closed(r.state.out))
    decreases fs.files.Keys - s.seen, 1
  {
    var path := Target(fs, filename);
    if path in s.seen then Step(s, Done(None)) else FreshSpec(fs, aliases, s, path, name, symbol, last)
  }

  /**
   * process on a path not yet seen (tools/luaknit.py:86-157): mark it seen,
   * bind the module, write the block's opening line, then the block; a path
   * that is not a file cannot be opened.
   */
  function FreshSpec(fs: FileSystem, aliases: seq<Alias>, s: State, path: string, name: string, symbol: string,
                     last: Option<string>): (r: Step)
    requires path !in s.seen
    ensures s.seen + {path} <= r.state.seen && s.out + ConditionalNewline(last) + [Header(symbol)] <= r.state.out
    ensures s.modules.Keys + {name} <= r.state.modules.Keys
    ensures KeepsBindings(s.modules[name := symbol], r.state.modules)
    ensures r.status.Failed? ==> !r.status.err.BadArgument?
    ensures r.status.Done? ==> Closed(r.state.out)
    decreases fs.files.Keys - s.seen, 0
  {
    var started := State(s.modules[name := symbol], s.seen + {path}, s.out + ConditionalNewline(last) + [Header(symbol)]);
    if !IsFile(fs, path) then
      KeepsOwnBindings(started.modules);
      StartedExtends(s, path, name, symbol, started.out, started);
      Step(started, Failed(Unreadable(path)))
    else
      assert fs.files.Keys - started.seen < fs.files.Keys - s.seen by {
        assert path in fs.files.Keys - s.seen && path !in fs.files.Keys - started.seen;
      }
      var r := BlockSpec(fs, aliases, started, path, Stripped(SplitLines(fs.files[path])), 0, None);
      StartedExtends(s, path, name, symbol, started.out, r.state);
      r
  }

  /** What extending the state of a freshly opened block keeps of the state before it. */
  lemma StartedExtends(s: State, path: string, name: string, symbol: string, header: seq<string>, t: State)
    requires Extends(State(s.modules[name := symbol], s.seen + {path}, header), t)
    ensures s.seen + {path} <= t.seen && header <= t.out
    ensures s.modules.Keys + {name} <= t.modules.Keys && KeepsBindings(s.modules[name := symbol], t.modules)
  {
  }

  /**
   * The loop of process from the `i`-th stripped line on, then the block's
   * closing line (tools/luaknit.py:91-156); the first line that fails ends
   * the block with its failure.
   */
  function BlockSpec(fs: FileSystem, aliases: seq<Alias>, s: State, path: string, lines: seq<NumberedLine>, i: nat,
                     cur: Option<string>): (r: Step)
    requires i <= |lines|
    ensures Extends(s, r.state)
    ensures r.status.Failed? ==> !r.status.err.BadArgument?
    ensures r.status.Done? ==> Closed(r.state.out)
    decreases fs.files.Keys - s.seen, 4, |lines| - i
  {
    if i == |lines| then
      var closed := s.out + ConditionalNewline(cur) + [Footer];
      assert s.out <= closed && Closed(closed);
      KeepsOwnBindings(s.modules);
      Step(State(s.modules, s.seen, closed), Done(cur))
    else
      var step := LineSpec(fs, aliases, s, path, lines[i].text, Classify(lines[i].text), cur);
      if step.status.Failed? then step
      else
        var rest := BlockSpec(fs, aliases, step.state, path, lines, i + 1, step.status.last);
        ExtendsTransitive(s, step.state, rest.state);
        rest
  }

  /**
   * One iteration of the loop (tools/luaknit.py:92-154) for a line of the
   * given classification: a static require first has its module handled,
   * then the line is written as rewritten, or not at all when it is bare.
   */
  function LineSpec(fs: FileSystem, aliases: seq<Alias>, s: State, path: string, line: string, kind: LineKind,
                    cur: Option<string>): (r: Step)
    ensures Extends(s, r.state)
    ensures r.status.Failed? ==> !r.status.err.BadArgument?
    decreases fs.files.Keys - s.seen, 3
  {
    var req := if kind.Static? then RequireSpec(fs, aliases, s, path, kind.req.submodule, cur)
               else Required(Step(s, Done(cur)), "");
    if req.step.status.Failed? then req.step
    else Written(req.step, Emitted(line, kind, req.subsymbol))
  }

  /**
   * After a line's require was handled: the emitted text, if any, is written
   * after its conditional newline and becomes `last`.
   */
  function Written(before: Step, e: Option<string>): (r: Step)
    requires before.status.Done?
    ensures r.state.modules == before.state.modules && r.state.seen == before.state.seen
    ensures r.state.out == before.state.out + (if e.Some? then ConditionalNewline(before.status.last) + [e.value] else [])
    ensures r.status == Done(if e.Some? then e else before.status.last)
  {
    var t := before.state;
    if e.None? then Step(t, Done(before.status.last))
    else Step(State(t.modules, t.seen, t.out + ConditionalNewline(before.status.last) + [e.value]), Done(e))
  }

  /**
   * A static require's module (tools/luaknit.py:97-136): its non-empty
   * binding when it has one; otherwise the module is resolved and processed,
   * and `last` becomes what that processing returned.
   */
  function RequireSpec(fs: FileSystem, aliases: seq<Alias>, s: State, path: string, submodule: string,
                       cur: Option<string>): (r: Required)
    ensures Extends(s, r.step.state)
    ensures r.step.status.Failed? ==> !r.step.status.err.BadArgument?
    decreases fs.files.Keys - s.seen, 2
  {
    if Bound(s.modules, submodule) then Required(Step(s, Done(cur)), s.modules[submodule])
    else match ResolveSpec(fs, aliases, submodule)
      case None => Required(Step(s, Failed(Unresolved(path, submodule))), "")
      case Some(found) =>
        var p := ProcessSpec(fs, aliases, s, found.path, submodule, found.symbol, cur);
        if Target(fs, found.path) !in s.seen then
          KeepsBindingsOfUnbound(s.modules, submodule, found.symbol, p.state.modules);
          Required(p, found.symbol)
        else
          KeepsOwnBindings(s.modules);
          Required(p, found.symbol)
  }

  /**
   * The loop of tools/luaknit.py:185-186 from the `i`-th alias entry on, in
   * table order; the first failure stops the run. A run that finishes has
   * processed the path of every entry.
   */
  function RunSpec(fs: FileSystem, aliases: seq<Alias>, s: State, i: nat): (r: Step)
    requires i <= |aliases|
    ensures s.seen <= r.state.seen && s.out <= r.state.out
    ensures r.status.Failed? ==> !r.status.err.BadArgument?
    ensures r.status.Done? ==> forall k :: i <= k < |aliases| ==> Target(fs, aliases[k].path) in r.state.seen
    decreases |aliases| - i
  {
    if i == |aliases| then Step(s, Done(None))
    else
      var p := ProcessSpec(fs, aliases, s, aliases[i].path, aliases[i].name, aliases[i].symbol, None);
      if p.status.Failed? then p else RunSpec(fs, aliases, p.state, i + 1)
  }

  /**
   * A block that fails returns, unchanged, the step of one of its lines that
   * failed (tools/luaknit.py:134-136: the first failure leaves the loop).
   */
  lemma {:induction false} BlockFailureIsLineFailure(fs: FileSystem, aliases: seq<Alias>, s: State, path: string,
                                                     lines: seq<NumberedLine>, i: nat, cur: Option<string>)
    requires i <= |lines|
    ensures BlockSpec(fs, aliases, s, path, lines, i, cur).status.Failed? ==>
      exists k, t, c :: i <= k < |lines|
        && LineSpec(fs, aliases, t, path, lines[k].text, Classify(lines[k].text), c) == BlockSpec(fs, aliases, s, path, lines, i, cur)
    decreases |lines| - i
  {
    if i < |lines| {
      var step := LineSpec(fs, aliases, s, path, lines[i].text, Classify(lines[i].text), cur);
      if !step.status.Failed? {
        BlockFailureIsLineFailure(fs, aliases, step.state, path, lines, i + 1, step.status.last);
      }
    }
  }

  /**
   * A run that fails returns, unchanged, the step of one alias entry whose
   * processing failed (tools/luaknit.py:185-186 and the `sys.exit(1)` of
   * tools/luaknit.py:134-136).
   */
  lemma {:induction false} RunFailureIsEntryFailure(fs: FileSystem, aliases: seq<Alias>, s: State, i: nat)
    requires i <= |aliases|
    ensures RunSpec(fs, aliases, s, i).status.Failed? ==>
      exists k, t :: i <= k < |aliases|
        && ProcessSpec(fs, aliases, t, aliases[k].path, aliases[k].name, aliases[k].symbol, None) == RunSpec(fs, aliases, s, i)
    decreases |aliases| - i
  {
    if i < |aliases| {
      var p := ProcessSpec(fs, aliases, s, aliases[i].path, aliases[i].name, aliases[i].symbol, None);
      if !p.status.Failed? {
        RunFailureIsEntryFailure(fs, aliases, p.state, i + 1);
      }
    }
  }

  /**
   * A static require of an unbound module that resolves to a file not yet
   * inlined (tools/luaknit.py:97-134, tools/luaknit.py:141-152): the file's
   * whole block is written first, and the requiring line follows it,
   * rewritten with the resolved symbol, unless the inlining failed.
   */
  lemma ResolvedRequireInlinedFirst(fs: FileSystem, aliases: seq<Alias>, s: State, path: string, line: string,
                                    kind: LineKind, cur: Option<string>, found: Resolved)
    requires kind.Static? && !Bound(s.modules, kind.req.submodule)
    requires ResolveSpec(fs, aliases, kind.req.submodule) == Some(found)
    requires Target(fs, found.path) !in s.seen
    ensures var p := ProcessSpec(fs, aliases, s, found.path, kind.req.submodule, found.symbol, cur);
      s.out + ConditionalNewline(cur) + [Header(found.symbol)] <= p.state.out
      && Target(fs, found.path) in p.state.seen
      && (found.symbol != "" ==>
            kind.req.submodule in p.state.modules && p.state.modules[kind.req.submodule] == found.symbol)
      && (p.status.Done? ==> Closed(p.state.out))
      && LineSpec(fs, aliases, s, path, line, kind, cur)
         == if p.status.Failed? then p else Written(p, Emitted(line, kind, found.symbol))
  {
    var m := kind.req.submodule;
    var p := ProcessSpec(fs, aliases, s, found.path, m, found.symbol, cur);
    LineAfterRequire(fs, aliases, s, path, line, kind, cur, found);
    if found.symbol != "" {
      BindingKept(s.modules[m := found.symbol], p.state.modules, m);
    }
  }

  /** The line of a resolved static require comes after whatever processing its module wrote. */
  lemma LineAfterRequire(fs: FileSystem, aliases: seq<Alias>, s: State, path: string, line: string,
                         kind: LineKind, cur: Option<string>, found: Resolved)
    requires kind.Static? && !Bound(s.modules, kind.req.submodule)
    requires ResolveSpec(fs, aliases, kind.req.submodule) == Some(found)
    ensures var p := ProcessSpec(fs, aliases, s, found.path, kind.req.submodule, found.symbol, cur);
      var r := LineSpec(fs, aliases, s, path, line, kind, cur);
      r == if p.status.Failed? then p else Written(p, Emitted(line, kind, found.symbol))
  {
    var p := ProcessSpec(fs, aliases, s, found.path, kind.req.submodule, found.symbol, cur);
    assert RequireSpec(fs, aliases, s, path, kind.req.submodule, cur) == Required(p, found.symbol);
  }

  /**
   * A static require of an unbound module that resolves (tools/luaknit.py:97-152):
   * the module's file is processed first; a failure there ends the line with
   * that failure, otherwise the line, rewritten with the resolved symbol,
   * follows whatever the processing wrote, and becomes `last`.
   */
  lemma ResolvedLine(fs: FileSystem, aliases: seq<Alias>, s: State, path: string, line: string,
                     kind: LineKind, cur: Option<string>)
    ensures (kind.Static? && !Bound(s.modules, kind.req.submodule)
      && ResolveSpec(fs, aliases, kind.req.submodule).Some?) ==>
      var found := ResolveSpec(fs, aliases, kind.req.submodule).value;
      var p := ProcessSpec(fs, aliases, s, found.path, kind.req.submodule, found.symbol, cur);
      var e := Emitted(line, kind, found.symbol);
      var r := LineSpec(fs, aliases, s, path, line, kind, cur);
      Target(fs, found.path) in r.state.seen
      && (Target(fs, found.path) !in s.seen ==> s.out + ConditionalNewline(cur) + [Header(found.symbol)] <= r.state.out)
      && (r.status.Failed? ==> r == p)
      && (r.status.Done? ==>
            (p.status.Done? && r.status == Done(if e.Some? then e else p.status.last)
             && r.state.out == p.state.out + (if e.Some? then ConditionalNewline(p.status.last) + [e.value] else [])))
  {
    if kind.Static? && !Bound(s.modules, kind.req.submodule) && ResolveSpec(fs, aliases, kind.req.submodule).Some? {
      LineAfterRequire(fs, aliases, s, path, line, kind, cur, ResolveSpec(fs, aliases, kind.req.submodule).value);
    }
  }

  /** A non-empty binding kept by `KeepsBindings` is found in the later table. */
  lemma BindingKept(before: map<string, string>, after: map<string, string>, k: string)
    requires KeepsBindings(before, after) && k in before && before[k] != ""
    ensures k in after && after[k] == before[k]
  {
  }

  /**
   * The three cases of a static require's module (tools/luaknit.py:97-136):
   * a non-empty binding is used as it is and nothing changes; a module
   * nothing resolves stops the run and nothing changes; a resolved module is
   * rewritten with the resolved symbol after its file was processed.
   */
  lemma RequireCases(fs: FileSystem, aliases: seq<Alias>, s: State, path: string, submodule: string,
                     cur: Option<string>)
    ensures var r := RequireSpec(fs, aliases, s, path, submodule, cur);
      (Bound(s.modules, submodule) ==> r == Required(Step(s, Done(cur)), s.modules[submodule]))
      && (!Bound(s.modules, submodule) && ResolveSpec(fs, aliases, submodule).None? ==>
            r == Required(Step(s, Failed(Unresolved(path, submodule))), ""))
      && (!Bound(s.modules, submodule) && ResolveSpec(fs, aliases, submodule).Some? ==>
            r.subsymbol == ResolveSpec(fs, aliases, submodule).value.symbol
            && Target(fs, ResolveSpec(fs, aliases, submodule).value.path) in r.step.state.seen)
  {
  }

  /**
   * A static require whose module resolves to a file already inlined: nothing
   * is inlined and the module stays unbound; `process` returns None, so no
   * newline separates the rewritten line from the previous one.
   */
  lemma SeenRequireRewritten(fs: FileSystem, aliases: seq<Alias>, s: State, path: string, line: string,
                             kind: LineKind, cur: Option<string>, found: Resolved)
    requires kind.Static? && !Bound(s.modules, kind.req.submodule)
    requires ResolveSpec(fs, aliases, kind.req.submodule) == Some(found)
    requires Target(fs, found.path) in s.seen
    ensures LineSpec(fs, aliases, s, path, line, kind, cur) == Written(Step(s, Done(None)), Emitted(line, kind, found.symbol))
  {
    assert ProcessSpec(fs, aliases, s, found.path, kind.req.submodule, found.symbol, cur) == Step(s, Done(None));
    assert RequireSpec(fs, aliases, s, path, kind.req.submodule, cur) == Required(Step(s, Done(None)), found.symbol);
  }

  /** A static require nothing resolves ends the block with that failure (`sys.exit(1)`), writing nothing. */
  lemma UnresolvedRequireStops(fs: FileSystem, aliases: seq<Alias>, s: State, path: string, lines: seq<NumberedLine>,
                               i: nat, cur: Option<string>)
    requires i < |lines| && Classify(lines[i].text).Static?
    requires !Bound(s.modules, Classify(lines[i].text).req.submodule)
    requires ResolveSpec(fs, aliases, Classify(lines[i].text).req.submodule).None?
    ensures BlockSpec(fs, aliases, s, path, lines, i, cur)
      == Step(s, Failed(Unresolved(path, Classify(lines[i].text).req.submodule)))
  {
    var kind := Classify(lines[i].text);
    var failed := Step(s, Failed(Unresolved(path, kind.req.submodule)));
    assert RequireSpec(fs, aliases, s, path, kind.req.submodule, cur) == Required(failed, "");
    assert LineSpec(fs, aliases, s, path, lines[i].text, kind, cur) == failed;
  }

  /** No line is a static require. */
  predicate NoStaticRequire(lines: seq<NumberedLine>) {
    forall k :: 0 <= k < |lines| ==> !Classify(lines[k].text).Static?
  }

  /** What the loop writes for each line of a file with no static require. */
  function Emissions(lines: seq<NumberedLine>): (r: seq<string>)
    requires NoStaticRequire(lines)
    ensures |r| == |lines|
    ensures forall k :: 0 <= k < |lines| && Classify(lines[k].text).Plain? ==> r[k] == lines[k].text
  {
    seq(|lines|, k requires 0 <= k < |lines| => Emitted(lines[k].text, Classify(lines[k].text), "").value)
  }

  /** The pieces written for the given lines in order, each after its conditional newline, then the closing line. */
  function CopiedBody(texts: seq<string>, cur: Option<string>): seq<string> {
    if texts == [] then ConditionalNewline(cur) + [Footer]
    else ConditionalNewline(cur) + [texts[0]] + CopiedBody(texts[1..], Some(texts[0]))
  }

  /** Each line from `i` on has no static require and is written as the matching text. */
  predicate WrittenAs(lines: seq<NumberedLine>, texts: seq<string>, i: nat) {
    |texts| == |lines|
    && forall k :: i <= k < |lines| ==>
      !Classify(lines[k].text).Static? && Emitted(lines[k].text, Classify(lines[k].text), "") == Some(texts[k])
  }

  /** Lines with no static require are copied in order and the block is closed; nothing else changes. */
  lemma {:induction false} LinesCopied(fs: FileSystem, aliases: seq<Alias>, s: State, path: string,
                                        lines: seq<NumberedLine>, texts: seq<string>, i: nat, cur: Option<string>)
    requires i <= |lines| && WrittenAs(lines, texts, i)
    ensures var r := BlockSpec(fs, aliases, s, path, lines, i, cur);
      r.status.Done? && r.state == State(s.modules, s.seen, s.out + CopiedBody(texts[i..], cur))
    decreases |lines| - i
  {
    if i == |lines| {
      assert texts[i..] == [];
    } else {
      var e := texts[i];
      var rest := texts[i + 1..];
      var next := State(s.modules, s.seen, s.out + ConditionalNewline(cur) + [e]);
      CopiedLineStep(fs, aliases, s, path, lines, texts, i, cur);
      LinesCopied(fs, aliases, next, path, lines, texts, i + 1, Some(e));
      CopiedBodyCons(texts, i, cur);
      var r := BlockSpec(fs, aliases, next, path, lines, i + 1, Some(e));
      assert r.state.out == s.out + CopiedBody(texts[i..], cur) by {
        assert r.state.out == s.out + ConditionalNewline(cur) + [e] + CopiedBody(rest, Some(e));
        PiecesAssociate(s.out, ConditionalNewline(cur), [e], CopiedBody(rest, Some(e)));
      }
      assert BlockSpec(fs, aliases, s, path, lines, i, cur) == r;
    }
  }

  /** Concatenation of four pieces regroups. */
  lemma PiecesAssociate(a: seq<string>, b: seq<string>, c: seq<string>, d: seq<string>)
    ensures a + b + c + d == a + (b + c + d)
  {
  }

  /** CopiedBody of a suffix, one text unfolded. */
  lemma CopiedBodyCons(texts: seq<string>, i: nat, cur: Option<string>)
    requires i < |texts|
    ensures CopiedBody(texts[i..], cur) == ConditionalNewline(cur) + [texts[i]] + CopiedBody(texts[i + 1..], Some(texts[i]))
  {
    assert texts[i..][1..] == texts[i + 1..];
  }

  /** One line with no static require: it is written after its conditional newline and becomes `last`. */
  lemma CopiedLineStep(fs: FileSystem, aliases: seq<Alias>, s: State, path: string, lines: seq<NumberedLine>,
                       texts: seq<string>, i: nat, cur: Option<string>)
    requires i < |lines| && WrittenAs(lines, texts, i)
    ensures BlockSpec(fs, aliases, s, path, lines, i, cur)
      == BlockSpec(fs, aliases, State(s.modules, s.seen, s.out + ConditionalNewline(cur) + [texts[i]]), path, lines, i + 1, Some(texts[i]))
  {
    var kind := Classify(lines[i].text);
    var next := State(s.modules, s.seen, s.out + ConditionalNewline(cur) + [texts[i]]);
    assert !kind.Static? && Emitted(lines[i].text, kind, "") == Some(texts[i]);
    assert LineSpec(fs, aliases, s, path, lines[i].text, kind, cur) == Step(next, Done(Some(texts[i])));
  }

  /**
   * A file not yet inlined, with no static require: its block is the header,
   * its lines in order and the footer; the file is marked seen and the
   * module bound to its symbol, and nothing else changes.
   */
  lemma CopiedModuleBlock(fs: FileSystem, aliases: seq<Alias>, s: State, filename: string, name: string,
                          symbol: string, last: Option<string>)
    requires Target(fs, filename) !in s.seen && IsFile(fs, Target(fs, filename))
    requires NoStaticRequire(Stripped(SplitLines(fs.files[Target(fs, filename)])))
    ensures var r := ProcessSpec(fs, aliases, s, filename, name, symbol, last);
      r.status.Done?
      && r.state.seen == s.seen + {Target(fs, filename)}
      && r.state.modules == s.modules[name := symbol]
      && r.state.out == s.out + ConditionalNewline(last) + [Header(symbol)]
                        + CopiedBody(Emissions(Stripped(SplitLines(fs.files[Target(fs, filename)]))), None)
  {
    var path := Target(fs, filename);
    var lines := Stripped(SplitLines(fs.files[path]));
    var started := State(s.modules[name := symbol], s.seen + {path}, s.out + ConditionalNewline(last) + [Header(symbol)]);
    LinesCopied(fs, aliases, started, path, lines, Emissions(lines), 0, None);
    assert Emissions(lines)[0..] == Emissions(lines);
  }

  /** The bundler's state: the tables of tools/luaknit.py:24-25, the seen set and the output. */
  class Bundler {
    const fs: FileSystem
    var aliases: seq<Alias>
    var modules: map<string, string>
    var seen: set<string>
    var out: seq<string>
    /** The paths whose block was opened, in order. */
    ghost var inlined: seq<string>

    /** Each alias symbol once; every seen path was opened exactly once. */
    ghost predicate Valid()
      reads this
    {
      UniqueSymbols(aliases)
      && (forall i, j :: 0 <= i < j < |inlined| ==> inlined[i] != inlined[j])
      && (forall p :: p in seen <==> p in inlined)
    }

    /** The state process threads through its calls. */
    function Snapshot(): State
      reads this
    {
      State(modules, seen, out)
    }

    constructor (fs: FileSystem, header: seq<string>)
      ensures Valid()
      ensures this.fs == fs && aliases == [] && modules == map[] && seen == {} && out == header && inlined == []
    {
      this.fs := fs;
      aliases := [];
      modules := map[];
      seen := {};
      out := header;
      inlined := [];
    }

    /** out(piece) */
    method Emit(piece: string)
      modifies this
      ensures out == old(out) + [piece]
      ensures aliases == old(aliases) && modules == old(modules) && seen == old(seen) && inlined == old(inlined)
    {
      out := out + [piece];
    }

    /** print_conditional_newline(last, out) */
    method EmitConditionalNewline(last: Option<string>)
      modifies this
      ensures out == old(out) + ConditionalNewline(last)
      ensures aliases == old(aliases) && modules == old(modules) && seen == old(seen) && inlined == old(inlined)
    {
      if last.Some? && last.value != "" && !EndsWithOperator(last.value) {
        out := out + ["\n"];
      }
    }

    /** aliases[symbol] = (f, module) */
    method AddAlias(a: Alias)
      requires Valid()
      modifies this
      ensures Valid()
      ensures aliases == AliasTablePut(old(aliases), a)
      ensures modules == old(modules) && seen == old(seen) && out == old(out) && inlined == old(inlined)
    {
      AliasTablePutSpec(aliases, a);
      aliases := AliasTablePut(aliases, a);
    }

    /** The list search_bases of tools/luaknit.py:104-121. */
    method CollectBases(submodule: string) returns (bases: seq<string>)
      ensures bases == SearchBases(fs, aliases, submodule)
    {
      bases := [ModulePath(submodule)];
      for i := 0 to |aliases|
        invariant bases == [ModulePath(submodule)] + AliasBasesAll(fs, submodule, aliases[..i])
      {
        SearchBasesStep(fs, submodule, aliases, i, bases);
        bases := AppendAliasBases(bases, submodule, aliases[i]);
      }
      assert aliases[..|aliases|] == aliases;
    }

    /** One alias of the loop at tools/luaknit.py:106-121. */
    method AppendAliasBases(bases: seq<string>, submodule: string, a: Alias) returns (r: seq<string>)
      ensures r == bases + (if AliasMatches(submodule, a.symbol) then AliasBases(fs, submodule, a) else [])
    {
      r := bases;
      if AliasMatches(submodule, a.symbol) {
        var aliasDir := if IsFile(fs, a.path) then Dirname(a.path) else a.path;
        var remaining := Remaining(submodule, a.symbol);
        var base := PathJoin(aliasDir, ModulePath(remaining));
        if base != [] {
          r := r + [base];
        }
        if IsFile(fs, a.path) {
          r := r + [SplitextRoot(a.path)];
        }
      }
    }

    /** The probe loops of tools/luaknit.py:123-133, up to the first path that exists. */
    method ProbeBases(bases: seq<string>) returns (h: Option<Probe>)
      ensures h == FirstHit(fs, bases, 0)
    {
      var i := 0;
      while i < |bases|
        invariant i <= |bases|
        invariant FirstHit(fs, bases, i) == FirstHit(fs, bases, 0)
      {
        if PathExists(fs, bases[i] + ".lua") {
          return Some(Probe(i, Lua));
        }
        if PathExists(fs, bases[i] + "/init.lua") {
          return Some(Probe(i, InitLua));
        }
        i := i + 1;
      }
      return None;
    }

    /**
     * The resolver of tools/luaknit.py:104-133: the first existing candidate
     * and the symbol derived from the suffix that hit (tools/luaknit.py:128).
     */
    method Resolve(submodule: string) returns (r: Option<Resolved>)
      ensures r == ResolveSpec(fs, aliases, submodule)
    {
      var bases := CollectBases(submodule);
      var h := ProbeBases(bases);
      if h.None? {
        return None;
      }
      var suffix := SuffixText(h.value.suffix);
      return Some(Resolved(bases[h.value.index] + suffix, Mangle(submodule) + SymbolSuffix(h.value.suffix)));
    }

    /** The start of a fresh path's block (tools/luaknit.py:86-89). */
    method Open(path: string, name: string, symbol: string, last: Option<string>)
      requires Valid() && path !in seen
      modifies this
      ensures Valid() && aliases == old(aliases)
      ensures seen == old(seen) + {path} && inlined == old(inlined) + [path]
      ensures modules == old(modules)[name := symbol]
      ensures out == old(out) + ConditionalNewline(last) + [Header(symbol)]
    {
      seen := seen + {path};
      inlined := inlined + [path];
      modules := modules[name := symbol];
      EmitConditionalNewline(last);
      Emit(Header(symbol));
    }

    /**
     * The argument loop of tools/luaknit.py:175-182: one alias entry per
     * argument, in order. Stops at the first argument `f.split('=')` refuses,
     * and otherwise yields the last named symbol.
     */
    method AddFiles(files: seq<string>) returns (bad: Option<nat>, returnSymbol: string)
      requires Valid()
      modifies this
      ensures Valid()
      ensures modules == old(modules) && seen == old(seen) && out == old(out) && inlined == old(inlined)
      ensures bad.Some? ==> bad.value < |files| && ParseFileArg(files[bad.value]).None?
      ensures bad.None? ==> (forall j :: 0 <= j < |files| ==> ParseFileArg(files[j]).Some?)
      ensures bad.Some? ==> forall j :: 0 <= j < bad.value ==> ParseFileArg(files[j]).Some?
      ensures bad.None? ==> returnSymbol == ReturnSymbol(files) && aliases == AliasTableOf(old(aliases), files)
    {
      returnSymbol := "";
      for i := 0 to |files|
        invariant Valid()
        invariant modules == old(modules) && seen == old(seen) && out == old(out) && inlined == old(inlined)
        invariant forall j :: 0 <= j < i ==> ParseFileArg(files[j]).Some?
        invariant returnSymbol == ReturnSymbol(files[..i])
        invariant aliases == AliasTableOf(old(aliases), files[..i])
      {
        var parsed := ParseFileArg(files[i]);
        if parsed.None? {
          return Some(i), returnSymbol;
        }
        AliasTableOfStep(old(aliases), files, i);
        AddAlias(parsed.value.alias);
        if parsed.value.named {
          returnSymbol := parsed.value.alias.symbol;
        }
        ReturnSymbolStep(files, i);
      }
      assert files[..|files|] == files;
      bad := None;
    }

    /** The loop of tools/luaknit.py:185-186: process every alias entry in table order. */
    method ProcessAll() returns (failure: Option<Error>)
      requires Valid()
      modifies this
      ensures Valid() && aliases == old(aliases) && old(out) <= out
      ensures failure.Some? ==> !failure.value.BadArgument?
      ensures var run := RunSpec(fs, aliases, old(Snapshot()), 0);
        Snapshot() == run.state && (failure.None? <==> run.status.Done?)
        && (failure.Some? ==> run.status == Failed(failure.value))
      ensures failure.None? ==> forall k :: 0 <= k < |aliases| ==> Target(fs, aliases[k].path) in seen
    {
      var table := aliases;
      for i := 0 to |table|
        invariant Valid() && aliases == table && old(out) <= out
        invariant RunSpec(fs, table, Snapshot(), i) == RunSpec(fs, table, old(Snapshot()), 0)
      {
        var a := table[i];
        var st := Process(a.path, a.name, a.symbol, None);
        if st.Failed? {
          return Some(st.err);
        }
      }
      return None;
    }

    /**
     * process(filename, module, symbol, seen, out, last): inline the file
     * once, wrapped in its block, with every module it requires inlined
     * before the line that requires it.
     */
    method Process(filename: string, name: string, symbol: string, last: Option<string>) returns (r: Status)
      requires Valid()
      modifies this
      ensures Valid() && aliases == old(aliases)
      ensures old(seen) <= seen && old(inlined) <= inlined && old(out) <= out
      ensures old(modules).Keys <= modules.Keys
      ensures r.Failed? ==> !r.err.BadArgument?
      ensures Target(fs, filename) in old(seen) ==>
        r == Done(None) && seen == old(seen) && modules == old(modules)
        && out == old(out) && inlined == old(inlined)
      ensures Target(fs, filename) !in old(seen) ==>
        Target(fs, filename) in seen
        && |old(inlined)| < |inlined| && inlined[|old(inlined)|] == Target(fs, filename)
        && old(out) + ConditionalNewline(last) + [Header(symbol)] <= out
        && (r.Done? ==> Closed(out))
        && KeepsBindings(old(modules)[name := symbol], modules)
      ensures Step(Snapshot(), r) == ProcessSpec(fs, aliases, old(Snapshot()), filename, name, symbol, last)
      decreases fs.files.Keys - seen, 1
    {
      var path := Target(fs, filename);
      if path in seen {
        return Done(None);
      }
      r := ProcessFresh(path, name, symbol, last);
    }

    /** process on a path not yet seen (tools/luaknit.py:86-157). */
    method ProcessFresh(path: string, name: string, symbol: string, last: Option<string>) returns (r: Status)
      requires Valid() && path !in seen
      modifies this
      ensures Valid() && aliases == old(aliases)
      ensures old(seen) + {path} <= seen && old(inlined) + [path] <= inlined
      ensures old(out) + ConditionalNewline(last) + [Header(symbol)] <= out
      ensures old(modules).Keys <= modules.Keys && KeepsBindings(old(modules)[name := symbol], modules)
      ensures r.Failed? ==> !r.err.BadArgument?
      ensures r.Done? ==> Closed(out)
      ensures Step(Snapshot(), r) == FreshSpec(fs, aliases, old(Snapshot()), path, name, symbol, last)
      decreases fs.files.Keys - seen, 0
    {
      Open(path, name, symbol, last);
      if !IsFile(fs, path) {
        return Failed(Unreadable(path));
      }
      assert fs.files.Keys - seen < old(fs.files.Keys - seen) by {
        assert path in old(fs.files.Keys - seen) && path !in fs.files.Keys - seen;
      }
      var lines := GetStrippedSource(fs.files[path]);
      r := InlineAll(path, lines);
    }

    /** The loop of process (tools/luaknit.py:91-154) and the block's closing line. */
    method InlineAll(path: string, lines: seq<NumberedLine>) returns (r: Status)
      requires Valid() && path in seen && path in fs.files
      modifies this
      ensures Valid() && aliases == old(aliases)
      ensures old(seen) <= seen && old(inlined) <= inlined && old(out) <= out
      ensures old(modules).Keys <= modules.Keys && KeepsBindings(old(modules), modules)
      ensures r.Failed? ==> !r.err.BadArgument?
      ensures r.Done? ==> Closed(out)
      ensures Step(Snapshot(), r) == BlockSpec(fs, aliases, old(Snapshot()), path, lines, 0, None)
      decreases fs.files.Keys - seen, 4
    {
      var cur: Option<string> := None;
      for i := 0 to |lines|
        invariant Valid() && aliases == old(aliases)
        invariant old(seen) <= seen && old(inlined) <= inlined && old(out) <= out
        invariant old(modules).Keys <= modules.Keys && KeepsBindings(old(modules), modules)
        invariant BlockSpec(fs, aliases, Snapshot(), path, lines, i, cur) == BlockSpec(fs, aliases, old(Snapshot()), path, lines, 0, None)
      {
        var st := InlineLine(path, lines[i].text, Classify(lines[i].text), cur);
        if st.Failed? {
          return st;
        }
        cur := st.last;
      }
      EmitConditionalNewline(cur);
      Emit(Footer);
      return Done(cur);
    }

    /**
     * The handling of a static require's module (tools/luaknit.py:97-136): use
     * its binding when it has a non-empty one, otherwise resolve it and inline
     * the file found. Yields the symbol the line is rewritten with.
     */
    method Require(path: string, submodule: string, cur: Option<string>) returns (st: Status, subsymbol: string)
      requires Valid() && path in seen
      modifies this
      ensures Valid() && aliases == old(aliases)
      ensures old(seen) <= seen && old(inlined) <= inlined && (seen == old(seen) ==> inlined == old(inlined))
      ensures Required(Step(Snapshot(), st), subsymbol) == RequireSpec(fs, aliases, old(Snapshot()), path, submodule, cur)
      ensures Bound(old(modules), submodule) ==>
        st == Done(cur) && subsymbol == old(modules)[submodule] && Snapshot() == old(Snapshot())
      ensures !Bound(old(modules), submodule) && ResolveSpec(fs, aliases, submodule).None? ==>
        st == Failed(Unresolved(path, submodule)) && Snapshot() == old(Snapshot())
      ensures !Bound(old(modules), submodule) && ResolveSpec(fs, aliases, submodule).Some? ==>
        var found := ResolveSpec(fs, aliases, submodule).value;
        subsymbol == found.symbol && Target(fs, found.path) in seen
        && Step(Snapshot(), st) == ProcessSpec(fs, aliases, old(Snapshot()), found.path, submodule, found.symbol, cur)
        && (Target(fs, found.path) !in old(seen) ==> old(out) + ConditionalNewline(cur) + [Header(found.symbol)] <= out)
      decreases fs.files.Keys - seen, 2
    {
      if Bound(modules, submodule) {
        return Done(cur), modules[submodule];
      }
      var found := Resolve(submodule);
      if found.None? {
        return Failed(Unresolved(path, submodule)), "";
      }
      st := Process(found.value.path, submodule, found.value.symbol, cur);
      subsymbol := found.value.symbol;
    }

    /**
     * One iteration of process's loop (tools/luaknit.py:92-154) for a line of
     * the given classification: inline what a static require needs, then emit
     * the line as rewritten, or nothing for a bare require.
     */
    method InlineLine(path: string, line: string, kind: LineKind, cur: Option<string>) returns (r: Status)
      requires Valid() && path in seen
      modifies this
      ensures Valid() && aliases == old(aliases)
      ensures old(seen) <= seen && old(inlined) <= inlined && old(out) <= out
      ensures old(modules).Keys <= modules.Keys && KeepsBindings(old(modules), modules)
      ensures r.Failed? ==> !r.err.BadArgument?
      ensures !kind.Static? ==>
        var text := Emitted(line, kind, "").value;
        r == Done(Some(text)) && out == old(out) + ConditionalNewline(cur) + [text]
        && seen == old(seen) && modules == old(modules) && inlined == old(inlined)
      ensures kind.Static? && Bound(old(modules), kind.req.submodule) ==>
        var e := Emitted(line, kind, old(modules)[kind.req.submodule]);
        r == Done(if e.Some? then e else cur)
        && out == old(out) + (if e.Some? then ConditionalNewline(cur) + [e.value] else [])
        && seen == old(seen) && modules == old(modules) && inlined == old(inlined)
      ensures (kind.Static? && !Bound(old(modules), kind.req.submodule)
        && ResolveSpec(fs, aliases, kind.req.submodule).None?) ==>
        r == Failed(Unresolved(path, kind.req.submodule))
        && seen == old(seen) && modules == old(modules) && out == old(out) && inlined == old(inlined)
      ensures (kind.Static? && !Bound(old(modules), kind.req.submodule)
        && ResolveSpec(fs, aliases, kind.req.submodule).Some?) ==>
        var found := ResolveSpec(fs, aliases, kind.req.submodule).value;
        var p := ProcessSpec(fs, aliases, old(Snapshot()), found.path, kind.req.submodule, found.symbol, cur);
        var e := Emitted(line, kind, found.symbol);
        Target(fs, found.path) in seen
        && (Target(fs, found.path) !in old(seen) ==> old(out) + ConditionalNewline(cur) + [Header(found.symbol)] <= out)
        && (r.Failed? ==> Step(Snapshot(), r) == p)
        && (r.Done? ==>
              (p.status.Done? && r == Done(if e.Some? then e else p.status.last)
               && out == p.state.out + (if e.Some? then ConditionalNewline(p.status.last) + [e.value] else [])))
      ensures Step(Snapshot(), r) == LineSpec(fs, aliases, old(Snapshot()), path, line, kind, cur)
      decreases fs.files.Keys - seen, 3
    {
      ResolvedLine(fs, aliases, Snapshot(), path, line, kind, cur);
      var subsymbol := "";
      var next := cur;
      if kind.Static? {
        var st;
        st, subsymbol := Require(path, kind.req.submodule, cur);
        if st.Failed? {
          return st;
        }
        next := st.last;
      }
      var e := Emitted(line, kind, subsymbol);
      if e.None? {
        return Done(next);
      }
      EmitConditionalNewline(next);
      Emit(e.value);
      return Done(e);
    }
  }

  /** The generated file, or why there is none. */
  datatype Bundle = Bundle(text: string) | Aborted(err: Error)

  /** The piece appended for a non-empty `return_symbol` (tools/luaknit.py:188-189). */
  function ReturnLine(symbol: string): seq<string> {
    if symbol != "" then ["return " + symbol] else []
  }

  /**
   * What the entry point produces (tools/luaknit.py:171-192): the first
   * argument `f.split('=')` refuses aborts the run; otherwise the alias
   * entries are processed in order after the comment header, the first
   * failure aborts, and the pieces are joined with the return line and a
   * final newline.
   */
  function KnitSpec(fs: FileSystem, comment: string, files: seq<string>): Bundle {
    var k := FirstBad(files);
    if k < |files| then Aborted(BadArgument(files[k]))
    else
      var run := RunSpec(fs, AliasTableOf([], files), State(map[], {}, CommentLines(comment)), 0);
      if run.status.Failed? then Aborted(run.status.err)
      else Bundle(Concat(run.state.out + ReturnLine(ReturnSymbol(files))) + "\n")
  }

  /**
   * The entry point (tools/luaknit.py:171-192): build the alias table from the
   * file arguments in order, process every entry, append `return SYMBOL` for
   * the last named symbol, and join the pieces with a final newline.
   */
  method Knit(fs: FileSystem, comment: string, files: seq<string>) returns (r: Bundle)
    ensures r == KnitSpec(fs, comment, files)
    ensures r.Bundle? ==> StartsWith(r.text, Concat(CommentLines(comment))) && EndsWith(r.text, "\n")
    ensures r.Bundle? && ReturnSymbol(files) != "" ==> EndsWith(r.text, "return " + ReturnSymbol(files) + "\n")
    ensures (r.Aborted? && r.err.BadArgument?) <==>
      exists i :: 0 <= i < |files| && ParseFileArg(files[i]).None?
    ensures (forall i :: 0 <= i < |files| ==> ParseFileArg(files[i]).Some?) ==>
      var table := AliasTableOf([], files);
      var run := RunSpec(fs, table, State(map[], {}, CommentLines(comment)), 0);
      (r.Aborted? <==> run.status.Failed?) && (r.Aborted? ==> r.err == run.status.err)
      && (r.Bundle? ==>
            (r.text == Concat(run.state.out + ReturnLine(ReturnSymbol(files))) + "\n"
             && forall k :: 0 <= k < |table| ==> Target(fs, table[k].path) in run.state.seen))
  {
    var header := CommentLines(comment);
    var b := new Bundler(fs, header);
    var bad, returnSymbol := b.AddFiles(files);
    if bad.Some? {
      assert bad.value == FirstBad(files);
      return Aborted(BadArgument(files[bad.value]));
    }
    assert FirstBad(files) == |files|;
    var failure := b.ProcessAll();
    if failure.Some? {
      return Aborted(failure.value);
    }
    ghost var body := b.out;
    if returnSymbol != "" {
      b.Emit("return " + returnSymbol);
      JoinedReturn(b.out, returnSymbol);
    }
    assert b.out == body + ReturnLine(ReturnSymbol(files));
    JoinedOutput(header, b.out);
    r := Bundle(Concat(b.out) + "\n");
  }

  /** The joined output begins with the joined header and ends with the final newline. */
  lemma JoinedOutput(header: seq<string>, out: seq<string>)
    requires header <= out
    ensures StartsWith(Concat(out) + "\n", Concat(header)) && EndsWith(Concat(out) + "\n", "\n")
  {
    assert out == header + out[|header|..];
    ConcatAppend(header, out[|header|..]);
  }

  /** A last piece `return SYMBOL` ends the joined output, before the final newline. */
  lemma JoinedReturn(out: seq<string>, symbol: string)
    requires out != [] && out[|out| - 1] == "return " + symbol
    ensures EndsWith(Concat(out) + "\n", "return " + symbol + "\n")
  {
  }
}
