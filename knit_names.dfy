/**
 * Symbol names and the blank-line heuristic of the Lua bundler
 * (tools/luaknit.py): `get_global_module_name` and `print_conditional_newline`.
 */
module KnitNames {
  import opened Outcomes
  import opened Text

  /** The class `[a-zA-Z\d_]`; `\d` is taken as the ASCII digits. */
  predicate IsWordChar(c: char) {
    ('a' <= c <= 'z') || ('A' <= c <= 'Z') || ('0' <= c <= '9') || c == '_'
  }

  predicate AllWordChars(s: string) {
    forall i :: 0 <= i < |s| ==> IsWordChar(s[i])
  }

  const SymbolPrefix := "__mod_"

  /** re.sub(r'[^a-zA-Z\d_]', '_', s) */
  function WordChars(s: string): (r: string)
    ensures |r| == |s|
    ensures forall i :: 0 <= i < |s| ==> r[i] == if IsWordChar(s[i]) then s[i] else '_'
  {
    if s == [] then [] else [if IsWordChar(s[0]) then s[0] else '_'] + WordChars(s[1..])
  }

  /**
   * get_global_module_name: the symbol a module's block is bound to: the
   * prefix, then the module name with each non-word character turned into `_`.
   */
  function Mangle(name: string): (r: string)
    ensures |r| == |name| + 6 && StartsWith(r, SymbolPrefix)
    ensures forall i :: 0 <= i < |name| ==> r[6 + i] == if IsWordChar(name[i]) then name[i] else '_'
    ensures AllWordChars(r)
  {
    SymbolPrefix + WordChars(name)
  }

  /** Mangling keeps a name exactly when every character of it is a word character. */
  lemma MangleKeepsWordNames(name: string)
    ensures Mangle(name) == SymbolPrefix + name <==> AllWordChars(name)
  {
    if Mangle(name) == SymbolPrefix + name {
      forall i | 0 <= i < |name|
        ensures IsWordChar(name[i])
      {
        assert Mangle(name)[6 + i] == name[i];
      }
    }
  }

  /** Mangling is not injective: a dotted module name and its underscored twin share a symbol. */
  lemma MangleMergesSeparators(name: string, i: nat)
    requires i < |name| && !IsWordChar(name[i])
    ensures Mangle(name) == Mangle(name[i := '_'])
    ensures name != name[i := '_']
  {
    assert WordChars(name) == WordChars(name[i := '_']);
  }

  // The characters of the class [(){}.'"=<>+\-*/,|&%] after which no blank line is inserted.
  const Operators := "(){}.'\"=<>+-*/,|&%"

  // re.search(r'''[(){}.'"=<>+\-*/,|&%]$''', s); `$` also matches before a final '\n'.
  predicate EndsWithOperator(s: string) {
    (|s| >= 1 && s[|s| - 1] in Operators)
    || (|s| >= 2 && s[|s| - 1] == '\n' && s[|s| - 2] in Operators)
  }

  /** print_conditional_newline's test: `last` is a non-empty line not ending in an operator. */
  predicate NeedsNewline(last: Option<string>) {
    last.Some? && last.value != "" && !EndsWithOperator(last.value)
  }

  /** What print_conditional_newline appends to the output: one "\n" or nothing. */
  function ConditionalNewline(last: Option<string>): (r: seq<string>)
    ensures |r| <= 1 && (forall i :: 0 <= i < |r| ==> r[i] == "\n")
    ensures r != [] <==> last.Some? && last.value != "" && !EndsWithOperator(last.value)
  {
    if NeedsNewline(last) then ["\n"] else []
  }

  /** For a line that does not end in whitespace, the test is on its last character alone. */
  lemma NewlineAfterLine(line: string)
    requires line != [] && !IsSpace(line[|line| - 1])
    ensures NeedsNewline(Some(line)) <==> line[|line| - 1] !in Operators
  {
  }
}
