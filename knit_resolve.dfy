/**
 * Where the Lua bundler looks for a required module (tools/luaknit.py:104-133):
 * the ordered list of candidate base paths, the two suffixes probed for each,
 * and the symbol the hit is bound to. The filesystem is a value: a set of
 * directories and a map from file path to contents.
 */
module KnitResolve {
  import opened Outcomes
  import opened Text
  import opened KnitNames

  /** The files and directories that exist, with each file's text. */
  datatype FileSystem = FileSystem(dirs: set<string>, files: map<string, string>)

  /** os.path.isfile */
  predicate IsFile(fs: FileSystem, p: string) {
    p in fs.files
  }

  /** os.path.isdir */
  predicate IsDir(fs: FileSystem, p: string) {
    p in fs.dirs
  }

  /** os.path.exists */
  predicate PathExists(fs: FileSystem, p: string) {
    IsFile(fs, p) || IsDir(fs, p)
  }

  /** An entry of the alias table: the path given for a symbol and the module name derived from it. */
  datatype Alias = Alias(symbol: string, path: string, name: string)

  /** posixpath.join(a, b) */
  function PathJoin(a: string, b: string): (r: string)
    ensures EndsWith(r, b)
  {
    if b != [] && b[0] == '/' then b
    else if a == [] || a[|a| - 1] == '/' then a + b
    else a + "/" + b
  }

  predicate IsSlash(c: char) { c == '/' }

  predicate IsNotSlash(c: char) { c != '/' }

  predicate IsDot(c: char) { c == '.' }

  predicate IsNotDot(c: char) { c != '.' }

  /**
   * posixpath.dirname(p): everything up to the last '/', with the trailing
   * slashes dropped unless it consists of slashes only.
   */
  function Dirname(p: string): (r: string)
    ensures |r| <= |p| && StartsWith(p, r)
  {
    var i := match LastWhere(p, 0, |p|, IsSlash) case Some(j) => j + 1 case None => 0;
    var head := p[..i];
    match LastWhere(head, 0, |head|, IsNotSlash)
    case Some(j) => head[..j + 1]
    case None => head
  }

  /**
   * posixpath.splitext(p)[0]: `p` without its extension, where the extension
   * starts at the last '.' of the last component, provided that component has
   * a character other than '.' before it.
   */
  function SplitextRoot(p: string): (r: string)
    ensures StartsWith(p, r)
  {
    var start := match LastWhere(p, 0, |p|, IsSlash) case Some(j) => j + 1 case None => 0;
    match LastWhere(p, start, |p|, IsDot)
    case Some(d) => if LastWhere(p, start, d, IsNotDot).Some? then p[..d] else p
    case None => p
  }

  /** Joining a relative name onto a directory and taking the dirname gives the directory back. */
  lemma DirnameOfJoin(a: string, b: string)
    requires a != [] && a[|a| - 1] != '/'
    requires b != [] && '/' !in b
    ensures PathJoin(a, b) == a + "/" + b
    ensures Dirname(PathJoin(a, b)) == a
  {
    var p := a + "/" + b;
    assert LastWhere(p, 0, |p|, IsSlash) == Some(|a|) by {
      assert p[|a|] == '/';
      forall j | |a| < j < |p|
        ensures !IsSlash(p[j])
      {
        assert p[j] == b[j - |a| - 1];
      }
      LastWhereIs(p, 0, |p|, IsSlash, |a|);
    }
    var head := p[..|a| + 1];
    assert LastWhere(head, 0, |head|, IsNotSlash) == Some(|a| - 1) by {
      assert head[|a| - 1] == a[|a| - 1] && head[|a|] == '/';
      LastWhereIs(head, 0, |head|, IsNotSlash, |a| - 1);
    }
    assert head[..|a|] == a;
  }

  /** Dropping the `.lua` extension of a file named `base.lua` gives `base` back. */
  lemma SplitextOfLua(base: string)
    requires base != [] && base[|base| - 1] != '/' && base[|base| - 1] != '.'
    ensures SplitextRoot(base + ".lua") == base
  {
    var p := base + ".lua";
    var n := |base|;
    assert p[n] == '.' && p[n - 1] == base[n - 1];
    assert forall k :: n - 1 <= k < |p| ==> !IsSlash(p[k]) by {
      forall k | n <= k < |p|
        ensures !IsSlash(p[k])
      {
        assert p[k] == ".lua"[k - n];
      }
    }
    var start := match LastWhere(p, 0, |p|, IsSlash) case Some(j) => j + 1 case None => 0;
    assert start <= n - 1;
    assert LastWhere(p, start, |p|, IsDot) == Some(n);
    assert LastWhere(p, start, n, IsNotDot).Some?;
    assert p[..n] == base;
  }

  /** submodule.replace('.', os.path.sep): a dotted module name as a relative path. */
  function ModulePath(name: string): (r: string)
    ensures |r| == |name| && '.' !in r
    ensures forall i :: 0 <= i < |name| ==> r[i] == if name[i] == '.' then '/' else name[i]
    ensures forall i :: 0 <= i < |name| ==> (r[i] == '/' <==> name[i] == '.' || name[i] == '/')
  {
    ReplaceChar(name, '.', '/')
  }

  /** Index of the first character at or after `i` that is not '.'. */
  function SkipDots(s: string, i: nat): (k: nat)
    requires i <= |s|
    ensures i <= k <= |s|
    ensures forall j :: i <= j < k ==> s[j] == '.'
    ensures k < |s| ==> s[k] != '.'
    decreases |s| - i
  {
    if i < |s| && s[i] == '.' then SkipDots(s, i + 1) else i
  }

  /** The alias applies to the module exactly or as a dotted prefix. */
  predicate AliasMatches(submodule: string, symbol: string) {
    submodule == symbol || StartsWith(submodule, symbol + ".")
  }

  /** The directory an alias stands for: its path, or the directory of the file it names. */
  function AliasDir(fs: FileSystem, a: Alias): string {
    if IsFile(fs, a.path) then Dirname(a.path) else a.path
  }

  /** What follows the alias in the module name, with its leading dots stripped. */
  function Remaining(submodule: string, symbol: string): (r: string)
    requires AliasMatches(submodule, symbol)
    ensures r == [] || r[0] != '.'
  {
    var rest := submodule[|symbol|..];
    rest[SkipDots(rest, 0)..]
  }

  /** The bases one matching alias contributes (tools/luaknit.py:111-121). */
  function AliasBases(fs: FileSystem, submodule: string, a: Alias): (r: seq<string>)
    requires AliasMatches(submodule, a.symbol)
    ensures |r| <= 2
  {
    var base := PathJoin(AliasDir(fs, a), ModulePath(Remaining(submodule, a.symbol)));
    (if base != [] then [base] else [])
      + (if IsFile(fs, a.path) then [SplitextRoot(a.path)] else [])
  }

  /** The alias-derived bases, alias by alias in table order. */
  function AliasBasesAll(fs: FileSystem, submodule: string, aliases: seq<Alias>): seq<string> {
    if aliases == [] then []
    else
      var a := aliases[|aliases| - 1];
      AliasBasesAll(fs, submodule, aliases[..|aliases| - 1])
        + (if AliasMatches(submodule, a.symbol) then AliasBases(fs, submodule, a) else [])
  }

  /** One more alias of the table adds its own bases at the end. */
  lemma AliasBasesAllStep(fs: FileSystem, submodule: string, aliases: seq<Alias>, i: nat)
    requires i < |aliases|
    ensures AliasBasesAll(fs, submodule, aliases[..i + 1])
      == AliasBasesAll(fs, submodule, aliases[..i])
         + (if AliasMatches(submodule, aliases[i].symbol) then AliasBases(fs, submodule, aliases[i]) else [])
  {
    assert aliases[..i + 1][..i] == aliases[..i];
  }

  /** The candidate bases gathered over the first `i` aliases, extended by alias `i`, are those over the first `i + 1`. */
  lemma SearchBasesStep(fs: FileSystem, submodule: string, aliases: seq<Alias>, i: nat, bases: seq<string>)
    requires i < |aliases| && bases == [ModulePath(submodule)] + AliasBasesAll(fs, submodule, aliases[..i])
    ensures bases + (if AliasMatches(submodule, aliases[i].symbol) then AliasBases(fs, submodule, aliases[i]) else [])
      == [ModulePath(submodule)] + AliasBasesAll(fs, submodule, aliases[..i + 1])
  {
    AliasBasesAllStep(fs, submodule, aliases, i);
    var extra := if AliasMatches(submodule, aliases[i].symbol) then AliasBases(fs, submodule, aliases[i]) else [];
    assert ([ModulePath(submodule)] + AliasBasesAll(fs, submodule, aliases[..i])) + extra
      == [ModulePath(submodule)] + (AliasBasesAll(fs, submodule, aliases[..i]) + extra);
  }

  /** The candidate bases: the module name as a path first, then what the aliases give. */
  function SearchBases(fs: FileSystem, aliases: seq<Alias>, submodule: string): (r: seq<string>)
    ensures r != [] && r[0] == ModulePath(submodule)
  {
    [ModulePath(submodule)] + AliasBasesAll(fs, submodule, aliases)
  }

  /** Aliases that do not apply contribute nothing. */
  lemma {:induction false} NoMatchingAlias(fs: FileSystem, submodule: string, aliases: seq<Alias>)
    requires forall i :: 0 <= i < |aliases| ==> !AliasMatches(submodule, aliases[i].symbol)
    ensures SearchBases(fs, aliases, submodule) == [ModulePath(submodule)]
    ensures AliasBasesAll(fs, submodule, aliases) == []
    decreases |aliases|
  {
    if aliases != [] {
      NoMatchingAlias(fs, submodule, aliases[..|aliases| - 1]);
    }
  }

  /**
   * A directory alias `symbol=dir` and a module `symbol.rest` give the single
   * base `dir/rest` with the dots of `rest` turned into separators.
   */
  lemma DirectoryAliasBase(fs: FileSystem, a: Alias, rest: string)
    requires !IsFile(fs, a.path) && a.path != [] && a.path[|a.path| - 1] != '/'
    requires rest != [] && rest[0] != '.' && rest[0] != '/'
    ensures var submodule := a.symbol + "." + rest;
      AliasMatches(submodule, a.symbol)
      && AliasBases(fs, submodule, a) == [a.path + "/" + ModulePath(rest)]
  {
    var submodule := a.symbol + "." + rest;
    assert submodule[..|a.symbol| + 1] == a.symbol + ".";
    assert submodule[|a.symbol|..] == "." + rest;
    assert SkipDots("." + rest, 0) == 1 by {
      assert ("." + rest)[1] == rest[0];
    }
    assert ("." + rest)[1..] == rest;
    assert ModulePath(rest)[0] != '/';
  }

  /** The two suffixes probed for every base, in this order. */
  datatype Suffix = Lua | InitLua

  function SuffixText(s: Suffix): string {
    match s
    case Lua => ".lua"
    case InitLua => "/init.lua"
  }

  /** suffix.replace('.lua', '').replace('/', '_'): what the suffix adds to the symbol. */
  function SymbolSuffix(s: Suffix): string {
    ReplaceChar(ReplaceAll(SuffixText(s), ".lua", ""), '/', '_')
  }

  /** A module found as `x.lua` keeps the mangled name; one found as `x/init.lua` gets `_init`. */
  lemma SymbolSuffixValues()
    ensures SymbolSuffix(Lua) == ""
    ensures SymbolSuffix(InitLua) == "_init"
  {
    LuaSuffixRemoved();
    InitSuffixRemoved();
    assert ReplaceChar("/init", '/', '_') == "_init";
  }

  /** `".lua".replace(".lua", "")` is empty. */
  lemma LuaSuffixRemoved()
    ensures ReplaceAll(".lua", ".lua", "") == ""
  {
    assert StartsWith(".lua", ".lua");
    assert ".lua"[4..] == [];
  }

  /** `"/init.lua".replace(".lua", "")` is `"/init"`. */
  lemma InitSuffixRemoved()
    ensures ReplaceAll("/init.lua", ".lua", "") == "/init"
  {
    forall i | 0 <= i < 5
      ensures !StartsWith("/init.lua"[i..], ".lua")
    {
      assert "/init.lua"[i..][0] == "/init.lua"[i] != '.';
    }
    ReplaceAllNoMatchAt("/init.lua", ".lua", "", 5);
    assert "/init.lua"[..5] == "/init";
    assert "/init.lua"[5..] == ".lua";
    LuaSuffixRemoved();
  }

  /** A prefix that holds no occurrence of the pattern passes through str.replace unchanged. */
  lemma {:induction false} ReplaceAllNoMatchAt(s: string, pat: string, rep: string, k: nat)
    requires pat != [] && k <= |s|
    requires forall i :: 0 <= i < k ==> !StartsWith(s[i..], pat)
    ensures ReplaceAll(s, pat, rep) == s[..k] + ReplaceAll(s[k..], pat, rep)
    decreases k
  {
    if k > 0 {
      assert s[0..] == s;
      forall i | 0 <= i < k - 1
        ensures !StartsWith(s[1..][i..], pat)
      {
        assert s[1..][i..] == s[i + 1..];
      }
      ReplaceAllNoMatchAt(s[1..], pat, rep, k - 1);
      assert s[1..][k - 1..] == s[k..];
      assert s[..k] == [s[0]] + s[1..][..k - 1];
    }
  }

  /** Which base, and which suffix on it, the probe loop stops at. */
  datatype Probe = Probe(index: nat, suffix: Suffix)

  /**
   * The probe loop from base `i` on: bases in order, and for each `.lua`
   * before `/init.lua`; the first path that exists wins.
   */
  function FirstHit(fs: FileSystem, bases: seq<string>, i: nat): (r: Option<Probe>)
    requires i <= |bases|
    ensures r.Some? ==> (i <= r.value.index < |bases|
      && PathExists(fs, bases[r.value.index] + SuffixText(r.value.suffix)))
    ensures r.Some? ==> (forall j :: i <= j < r.value.index ==>
      !PathExists(fs, bases[j] + ".lua") && !PathExists(fs, bases[j] + "/init.lua"))
    ensures r.Some? && r.value.suffix == InitLua ==> !PathExists(fs, bases[r.value.index] + ".lua")
    ensures r.None? <==> forall j :: i <= j < |bases| ==>
      !PathExists(fs, bases[j] + ".lua") && !PathExists(fs, bases[j] + "/init.lua")
    decreases |bases| - i
  {
    if i == |bases| then None
    else if PathExists(fs, bases[i] + ".lua") then Some(Probe(i, Lua))
    else if PathExists(fs, bases[i] + "/init.lua") then Some(Probe(i, InitLua))
    else FirstHit(fs, bases, i + 1)
  }

  /** The file a require resolves to and the symbol its block is bound to. */
  datatype Resolved = Resolved(path: string, symbol: string)

  /**
   * Resolution of a module name that has no binding yet (tools/luaknit.py:104-133):
   * a path that exists, and a symbol that extends the mangled module name.
   */
  function ResolveSpec(fs: FileSystem, aliases: seq<Alias>, submodule: string): (r: Option<Resolved>)
    ensures r.Some? ==> PathExists(fs, r.value.path) && StartsWith(r.value.symbol, Mangle(submodule))
  {
    var bases := SearchBases(fs, aliases, submodule);
    match FirstHit(fs, bases, 0)
    case Some(h) =>
      var symbol := KnitNames.Mangle(submodule) + SymbolSuffix(h.suffix);
      assert symbol[..|Mangle(submodule)|] == Mangle(submodule);
      Some(Resolved(bases[h.index] + SuffixText(h.suffix), symbol))
    case None => None
  }

  /**
   * A resolved path exists and is one of the candidate bases with `.lua` or
   * `/init.lua` after it; the symbol is the mangled module name, with `_init`
   * exactly when the hit is an `init.lua`.
   */
  lemma ResolvedShape(fs: FileSystem, aliases: seq<Alias>, submodule: string)
    requires ResolveSpec(fs, aliases, submodule).Some?
    ensures var r := ResolveSpec(fs, aliases, submodule).value;
      PathExists(fs, r.path)
      && ((r.symbol == Mangle(submodule) && EndsWith(r.path, ".lua"))
          || (r.symbol == Mangle(submodule) + "_init" && EndsWith(r.path, "/init.lua")))
  {
    SymbolSuffixValues();
    var bases := SearchBases(fs, aliases, submodule);
    var h := FirstHit(fs, bases, 0).value;
    var base := bases[h.index];
    if h.suffix == Lua {
      assert (base + ".lua")[|base|..] == ".lua";
    } else {
      assert (base + "/init.lua")[|base|..] == "/init.lua";
    }
  }

  /** Resolution fails exactly when no candidate base has either file. */
  lemma UnresolvedIff(fs: FileSystem, aliases: seq<Alias>, submodule: string)
    ensures var bases := SearchBases(fs, aliases, submodule);
      ResolveSpec(fs, aliases, submodule).None? <==>
        forall j :: 0 <= j < |bases| ==>
          !PathExists(fs, bases[j] + ".lua") && !PathExists(fs, bases[j] + "/init.lua")
  {
  }

  /** When `a/b.lua` exists for module `a.b`, it wins over every alias. */
  lemma NaivePathFirst(fs: FileSystem, aliases: seq<Alias>, submodule: string)
    requires PathExists(fs, ModulePath(submodule) + ".lua")
    ensures ResolveSpec(fs, aliases, submodule)
      == Some(Resolved(ModulePath(submodule) + ".lua", Mangle(submodule)))
  {
    SymbolSuffixValues();
    assert Mangle(submodule) + "" == Mangle(submodule);
  }

  /** When the naive `a/b.lua` is missing but `a/b/init.lua` exists, that wins, with `_init`. */
  lemma NaiveInitSecond(fs: FileSystem, aliases: seq<Alias>, submodule: string)
    requires !PathExists(fs, ModulePath(submodule) + ".lua")
    requires PathExists(fs, ModulePath(submodule) + "/init.lua")
    ensures ResolveSpec(fs, aliases, submodule)
      == Some(Resolved(ModulePath(submodule) + "/init.lua", Mangle(submodule) + "_init"))
  {
    SymbolSuffixValues();
  }
}
