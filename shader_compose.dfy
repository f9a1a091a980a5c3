// The WGSL import composer run by the core crate's build script: it reads
// the `#import` lines of the template shader, collects the imported modules
// depth first (dependencies before dependants, cycles cut by a stack), strips
// the import directives and concatenates the modules before the main source.

module ShaderCompose {
  import opened Common

  // ---------------------------------------------------------------- text

  /** `pat` occurs in `s` at index `j`. */
  predicate OccursAt(s: string, pat: string, j: nat)
  {
    j + |pat| <= |s| && s[j..j + |pat|] == pat
  }

  /** `s.contains(pat)`. */
  predicate Contains(s: string, pat: string)
  {
    exists j: nat | j + |pat| <= |s| :: OccursAt(s, pat, j)
  }

  /** The first occurrence of `pat` in `s` at or after index `from`, as
      `str::find` searches left to right. */
  function Find(s: string, pat: string, from: nat): (r: Option<nat>)
    ensures r.Some? ==> from <= r.value && OccursAt(s, pat, r.value)
    ensures r.Some? ==> forall j: nat | from <= j < r.value :: !OccursAt(s, pat, j)
    ensures r.None? ==> forall j: nat | from <= j :: !OccursAt(s, pat, j)
    decreases |s| - from
  {
    if from + |pat| > |s| then None
    else if s[from..from + |pat|] == pat then Some(from)
    else Find(s, pat, from + 1)
  }

  /** The text is found exactly when it is contained. */
  lemma FindContains(s: string, pat: string)
    ensures Find(s, pat, 0).Some? <==> Contains(s, pat)
  {
    if Find(s, pat, 0).Some? {
      assert OccursAt(s, pat, Find(s, pat, 0).value);
    }
  }

  /** `s.split(sep)` for a non-empty separator: the pieces between
      non-overlapping occurrences found left to right. */
  function Split(s: string, sep: string): (parts: seq<string>)
    requires sep != []
    ensures |parts| >= 1
    decreases |s|
  {
    match Find(s, sep, 0)
    case None => [s]
    case Some(i) => [s[..i]] + Split(s[i + |sep|..], sep)
  }

  /** `parts.join(sep)`. */
  function Join(parts: seq<string>, sep: string): string
  {
    if parts == [] then []
    else if |parts| == 1 then parts[0]
    else parts[0] + sep + Join(parts[1..], sep)
  }

  /** Cutting the text around an occurrence of the pattern. */
  lemma Reassemble(s: string, pat: string, i: nat)
    requires OccursAt(s, pat, i)
    ensures s == s[..i] + pat + s[i + |pat|..]
  {
    assert s == s[..i] + s[i..i + |pat|] + s[i + |pat|..];
  }

  /** Joining a piece in front of others adds it and the separator. */
  lemma JoinCons(head: string, parts: seq<string>, sep: string)
    requires parts != []
    ensures Join([head] + parts, sep) == head + sep + Join(parts, sep)
  {
    assert ([head] + parts)[1..] == parts;
  }

  /** Joining the pieces of a split with the separator gives the text back. */
  lemma {:induction false} JoinSplit(s: string, sep: string)
    requires sep != []
    ensures Join(Split(s, sep), sep) == s
    decreases |s|
  {
    match Find(s, sep, 0)
    case None =>
    case Some(i) =>
      var rest := s[i + |sep|..];
      JoinSplit(rest, sep);
      JoinCons(s[..i], Split(rest, sep), sep);
      Reassemble(s, sep, i);
  }

  /** No piece of a split contains the separator. */
  lemma {:induction false} SplitPartsFree(s: string, sep: string)
    requires sep != []
    ensures forall p <- Split(s, sep) :: !Contains(p, sep)
    decreases |s|
  {
    match Find(s, sep, 0)
    case None =>
      forall j: nat | j + |sep| <= |s|
        ensures !OccursAt(s, sep, j)
      {
      }
    case Some(i) =>
      var rest := s[i + |sep|..];
      SplitPartsFree(rest, sep);
      var head := s[..i];
      forall j: nat | j + |sep| <= |head|
        ensures !OccursAt(head, sep, j)
      {
        assert head[j..j + |sep|] == s[j..j + |sep|];
        assert !OccursAt(s, sep, j);
      }
      assert Split(s, sep) == [head] + Split(rest, sep);
  }

  /** Joining one more piece adds the separator and the piece. */
  lemma {:induction false} JoinSnoc(parts: seq<string>, last: string, sep: string)
    requires parts != []
    ensures Join(parts + [last], sep) == Join(parts, sep) + sep + last
    decreases |parts|
  {
    if |parts| > 1 {
      JoinSnoc(parts[1..], last, sep);
      assert (parts + [last])[1..] == parts[1..] + [last];
    }
  }

  /** Rust's `char::is_whitespace`: the Unicode White_Space characters. */
  predicate IsWhitespace(c: char)
  {
    || c == ' ' || ('\t' <= c <= '\r') || c == '\U{85}' || c == '\U{A0}' || c == '\U{1680}'
    || ('\U{2000}' <= c <= '\U{200A}') || c == '\U{2028}' || c == '\U{2029}' || c == '\U{202F}'
    || c == '\U{205F}' || c == '\U{3000}'
  }

  /** `s.trim_start()`. */
  function TrimStart(s: string): string
    decreases |s|
  {
    if s != [] && IsWhitespace(s[0]) then TrimStart(s[1..]) else s
  }

  /** `trim_start` removes a run of leading whitespace and stops at a
      character that is not whitespace. */
  lemma {:induction false} TrimStartSuffix(s: string)
    ensures var r := TrimStart(s);
      && |r| <= |s| && r == s[|s| - |r|..]
      && (r != [] ==> !IsWhitespace(r[0]))
      && (forall i | 0 <= i < |s| - |r| :: IsWhitespace(s[i]))
    decreases |s|
  {
    if s != [] && IsWhitespace(s[0]) {
      TrimStartSuffix(s[1..]);
      var r := TrimStart(s);
      forall i | 1 <= i < |s| - |r|
        ensures IsWhitespace(s[i])
      {
        assert s[i] == s[1..][i - 1];
      }
    }
  }

  /** `s.trim_end()`. */
  function TrimEnd(s: string): string
    decreases |s|
  {
    if s != [] && IsWhitespace(s[|s| - 1]) then TrimEnd(s[..|s| - 1]) else s
  }

  /** `trim_end` removes a run of trailing whitespace and stops at a
      character that is not whitespace. */
  lemma {:induction false} TrimEndPrefix(s: string)
    ensures var r := TrimEnd(s);
      && |r| <= |s| && r == s[..|r|]
      && (r != [] ==> !IsWhitespace(r[|r| - 1]))
      && (forall i | |r| <= i < |s| :: IsWhitespace(s[i]))
    decreases |s|
  {
    if s != [] && IsWhitespace(s[|s| - 1]) {
      TrimEndPrefix(s[..|s| - 1]);
    }
  }

  /** `s.trim()`. */
  function Trim(s: string): string
  {
    TrimEnd(TrimStart(s))
  }

  /** Text that neither begins nor ends with whitespace is its own trim. */
  lemma TrimOfNonBlankEnds(s: string)
    requires s != [] && !IsWhitespace(s[0]) && !IsWhitespace(s[|s| - 1])
    ensures Trim(s) == s
  {
  }

  /** What `trim` keeps is the middle of the text between two runs of
      whitespace, and begins and ends with a non-whitespace character. */
  lemma TrimSpec(s: string)
    ensures var r := Trim(s);
      exists i: nat, j: nat | i <= j <= |s| ::
        && r == s[i..j]
        && (forall k | 0 <= k < i :: IsWhitespace(s[k]))
        && (forall k | j <= k < |s| :: IsWhitespace(s[k]))
    ensures var r := Trim(s); r != [] ==> !IsWhitespace(r[0]) && !IsWhitespace(r[|r| - 1])
  {
    var t := TrimStart(s);
    var r := TrimEnd(t);
    TrimStartSuffix(s);
    TrimEndPrefix(t);
    var i := |s| - |t|;
    var j := i + |r|;
    TrimMiddle(s, t, r);
    assert r == s[i..j] && (forall k | 0 <= k < i :: IsWhitespace(s[k])) && (forall k | j <= k < |s| :: IsWhitespace(s[k]));
    if r != [] {
      assert r[0] == t[0];
    }
  }

  /** The part `TrimEnd` keeps of what `TrimStart` kept, located in the
      original text. */
  lemma TrimMiddle(s: string, t: string, r: string)
    requires |t| <= |s| && t == s[|s| - |t|..] && |r| <= |t| && r == t[..|r|]
    requires forall k | |r| <= k < |t| :: IsWhitespace(t[k])
    ensures r == s[|s| - |t|..|s| - |t| + |r|]
    ensures forall k | |s| - |t| + |r| <= k < |s| :: IsWhitespace(s[k])
  {
    var i := |s| - |t|;
    forall k | i + |r| <= k < |s|
      ensures IsWhitespace(s[k])
    {
      assert s[k] == t[k - i];
    }
  }

  /** `s.trim_start_matches(pat)` for a non-empty pattern: removes every
      leading repetition of `pat`. */
  function TrimStartMatches(s: string, pat: string): (r: string)
    requires pat != []
    ensures !(pat <= r)
    decreases |s|
  {
    if pat <= s then TrimStartMatches(s[|pat|..], pat) else s
  }

  /** `t` is some number of copies of `pat` back to back. */
  predicate Repeats(t: string, pat: string)
    requires pat != []
    decreases |t|
  {
    t == [] || (pat <= t && Repeats(t[|pat|..], pat))
  }

  /** `TrimStartMatches` keeps a suffix of the text and removes copies of
      the pattern in front of it. */
  lemma {:induction false} TrimStartMatchesSuffix(s: string, pat: string)
    requires pat != []
    ensures var r := TrimStartMatches(s, pat);
      |r| <= |s| && r == s[|s| - |r|..] && Repeats(s[..|s| - |r|], pat)
    decreases |s|
  {
    if pat <= s {
      var rest := s[|pat|..];
      TrimStartMatchesSuffix(rest, pat);
      var r := TrimStartMatches(rest, pat);
      var removed := s[..|s| - |r|];
      assert removed[|pat|..] == rest[..|rest| - |r|];
      assert pat <= removed;
    }
  }

  /** `s.lines()`: the pieces between line feeds, a `\r` before a line feed
      removed, and no empty line after a final line feed. */
  function Lines(s: string): (ls: seq<string>)
    decreases |s|
  {
    if s == [] then []
    else match Find(s, "\n", 0)
      case None => [s]
      case Some(i) => [DropCarriageReturn(s[..i])] + Lines(s[i + 1..])
  }

  /** A line that ended in `\r\n` loses the `\r`. */
  function DropCarriageReturn(line: string): string
  {
    if line != [] && line[|line| - 1] == '\r' then line[..|line| - 1] else line
  }

  /** No line contains a line feed. */
  lemma {:induction false} LinesHaveNoFeed(s: string)
    ensures forall l <- Lines(s) :: '\n' !in l
    decreases |s|
  {
    if s != [] {
      match Find(s, "\n", 0)
      case None =>
        forall k | 0 <= k < |s|
          ensures s[k] != '\n'
        {
          assert !OccursAt(s, "\n", k);
          assert s[k..k + 1] == [s[k]];
        }
      case Some(i) =>
        LinesHaveNoFeed(s[i + 1..]);
        forall k | 0 <= k < i
          ensures s[k] != '\n'
        {
          assert !OccursAt(s, "\n", k);
          assert s[k..k + 1] == [s[k]];
        }
    }
  }

  /** For text without carriage returns or a final line feed, joining the
      lines with line feeds gives the text back. */
  lemma {:induction false} JoinLines(s: string)
    requires '\r' !in s && (s == [] || s[|s| - 1] != '\n')
    ensures Join(Lines(s), "\n") == s
    decreases |s|
  {
    if s != [] {
      match Find(s, "\n", 0)
      case None =>
      case Some(i) =>
        var rest := s[i + 1..];
        LinesStep(s, i);
        JoinLines(rest);
        JoinCons(s[..i], Lines(rest), "\n");
        Reassemble(s, "\n", i);
    }
  }

  /** The first line of a text without carriage returns ends at its first
      line feed; if the text does not end in a line feed, more lines follow
      and they hold no carriage return either. */
  lemma {:induction false} LinesStep(s: string, i: nat)
    requires '\r' !in s && s != [] && s[|s| - 1] != '\n' && Find(s, "\n", 0) == Some(i)
    ensures Lines(s) == [s[..i]] + Lines(s[i + 1..])
    ensures '\r' !in s[i + 1..] && s[i + 1..] != [] && s[|s| - 1] == s[i + 1..][|s[i + 1..]| - 1]
    ensures Lines(s[i + 1..]) != []
  {
    LinesHead(s, i);
    LinesRest(s, i);
  }

  /** The first line, ending at the first line feed, keeps all its characters
      when the text holds no carriage return. */
  lemma {:induction false} LinesHead(s: string, i: nat)
    requires '\r' !in s && s != [] && Find(s, "\n", 0) == Some(i)
    ensures Lines(s) == [s[..i]] + Lines(s[i + 1..])
  {
    if i > 0 {
      assert s[..i][i - 1] == s[i - 1];
    }
  }

  /** After the first line feed of a text that does not end in one, a
      non-empty text without carriage returns follows, ending where the
      text ends. */
  lemma {:induction false} LinesRest(s: string, i: nat)
    requires '\r' !in s && s != [] && s[|s| - 1] != '\n' && Find(s, "\n", 0) == Some(i)
    ensures '\r' !in s[i + 1..] && s[i + 1..] != [] && s[|s| - 1] == s[i + 1..][|s[i + 1..]| - 1]
    ensures Lines(s[i + 1..]) != []
  {
    assert s[i..i + 1] == "\n";
    assert forall c <- s[i + 1..] :: c in s;
  }

  // ---------------------------------------------------------------- directives

  const IMPORT: string := "#import"
  const DEFINE_IMPORT_PATH: string := "#define_import_path"

  /** The module an import names. A braced import `a::b::{X, Y}` names
      the path before the first `::{`; a simple import `a::b::c` drops its
      last `::` component; a single component names itself. */
  function ImportPath(content: string): (path: string)
  {
    if Contains(content, "::{") then Split(content, "::{")[0]
    else
      var parts := Split(content, "::");
      if |parts| > 1 then Join(parts[..|parts| - 1], "::") else content
  }

  /** A braced import names the text before its first `::{`. */
  lemma ImportPathBraced(content: string)
    requires Contains(content, "::{")
    ensures var path := ImportPath(content);
      && content == path + "::{" + content[|path| + 3..]
      && !Contains(path, "::{")
  {
    FindContains(content, "::{");
    var i := Find(content, "::{", 0).value;
    Reassemble(content, "::{", i);
    SplitPartsFree(content, "::{");
    assert Split(content, "::{")[0] in Split(content, "::{");
  }

  /** A simple import names everything before its last `::` component,
      and that last component holds no `::`; an import without `::` names
      itself. */
  lemma ImportPathSimple(content: string)
    requires !Contains(content, "::{")
    ensures var path := ImportPath(content);
      || (!Contains(content, "::") && path == content)
      || (exists last: string :: !Contains(last, "::") && content == path + "::" + last)
  {
    var parts := Split(content, "::");
    JoinSplit(content, "::");
    SplitPartsFree(content, "::");
    if |parts| > 1 {
      var last := parts[|parts| - 1];
      assert parts == parts[..|parts| - 1] + [last];
      JoinSnoc(parts[..|parts| - 1], last, "::");
      assert last in parts;
    } else {
      assert parts == [parts[0]];
      assert parts[0] in parts;
    }
  }

  /** The module a line imports, if it is an `#import` line: the line is
      trimmed, every leading `#import` removed and the rest trimmed again. */
  function ImportOf(line: string): Option<string>
  {
    var trimmed := Trim(line);
    if IMPORT <= trimmed then Some(ImportPath(Trim(TrimStartMatches(trimmed, IMPORT)))) else None
  }

  /** The first line that begins (untrimmed) with `#define_import_path`. */
  function FirstDefinition(lines: seq<string>): (r: Option<nat>)
    ensures r.Some? ==> r.value < |lines| && DEFINE_IMPORT_PATH <= lines[r.value]
    ensures r.Some? ==> forall k | 0 <= k < r.value :: !(DEFINE_IMPORT_PATH <= lines[k])
    ensures r.None? ==> forall k | 0 <= k < |lines| :: !(DEFINE_IMPORT_PATH <= lines[k])
  {
    if lines == [] then None
    else if DEFINE_IMPORT_PATH <= lines[0] then Some(0)
    else match FirstDefinition(lines[1..])
      case None => None
      case Some(k) => Some(k + 1)
  }

  /** The name a shader file registers under: what follows the first
      `#define_import_path`, trimmed, or else the file's stem. */
  function ModuleName(content: string, stem: string): string
  {
    match FirstDefinition(Lines(content))
    case None => stem
    case Some(k) => Trim(TrimStartMatches(Lines(content)[k], DEFINE_IMPORT_PATH))
  }

  /** A file whose line `k` is the first to begin with
      `#define_import_path` is named by the rest of that line, trimmed. */
  lemma ModuleNameDefined(content: string, stem: string, k: nat)
    requires k < |Lines(content)| && DEFINE_IMPORT_PATH <= Lines(content)[k]
    requires forall j | 0 <= j < k :: !(DEFINE_IMPORT_PATH <= Lines(content)[j])
    ensures ModuleName(content, stem) == Trim(TrimStartMatches(Lines(content)[k], DEFINE_IMPORT_PATH))
  {
    var r := FirstDefinition(Lines(content));
    assert r.Some?;
    assert r.value == k;
  }

  /** A file without such a line is named by its stem. */
  lemma ModuleNameStem(content: string, stem: string)
    requires forall l <- Lines(content) :: !(DEFINE_IMPORT_PATH <= l)
    ensures ModuleName(content, stem) == stem
  {
    var r := FirstDefinition(Lines(content));
    if r.Some? {
      assert Lines(content)[r.value] in Lines(content);
    }
  }

  // ---------------------------------------------------------------- collecting imports

  /** The module each line imports: `None` for a line that is no `#import`. */
  function Imports(lines: seq<string>): (imps: seq<Option<string>>)
  {
    seq(|lines|, j requires 0 <= j < |lines| => ImportOf(lines[j]))
  }

  /** Every known module with the imports of its lines: the graph that
      `collect_imports` walks. */
  function ImportGraph(modules: map<string, string>): (graph: map<string, seq<Option<string>>>)
  {
    map m | m in modules :: Imports(Lines(modules[m]))
  }

  /** The module names on the stack. */
  function Members(stack: seq<string>): set<string>
  {
    set x <- stack
  }

  /** What `collect_imports` leaves in `imported` after reading the
      imports `imps` of a module's lines from line `k` on, with `stack` the
      modules being collected. An import already collected, on the stack,
      or naming no known module is skipped; otherwise the named module's
      own imports are collected with the module pushed on the stack, and
      then the module itself is appended. */
  function Collect(imps: seq<Option<string>>, k: nat, graph: map<string, seq<Option<string>>>,
                   imported: seq<string>, stack: seq<string>): seq<string>
    requires k <= |imps|
    decreases graph.Keys - Members(stack), |imps| - k
  {
    if k == |imps| then imported
    else match imps[k]
      case None => Collect(imps, k + 1, graph, imported, stack)
      case Some(path) =>
        if path in imported || path in stack || path !in graph then Collect(imps, k + 1, graph, imported, stack)
        else
          assert path in graph.Keys - Members(stack) && path !in graph.Keys - Members(stack + [path]);
          var inner := Collect(graph[path], 0, graph, imported, stack + [path]);
          Collect(imps, k + 1, graph, inner + [path], stack)
  }

  /** Line `k` names no module to collect. */
  predicate Skipped(imp: Option<string>, graph: map<string, seq<Option<string>>>, imported: seq<string>, stack: seq<string>)
  {
    imp.None? || imp.value in imported || imp.value in stack || imp.value !in graph
  }

  /** A line that names no module to collect leaves `imported` alone. */
  lemma CollectSkip(imps: seq<Option<string>>, k: nat, graph: map<string, seq<Option<string>>>, imported: seq<string>, stack: seq<string>)
    requires k < |imps| && Skipped(imps[k], graph, imported, stack)
    ensures Collect(imps, k, graph, imported, stack) == Collect(imps, k + 1, graph, imported, stack)
  {
  }

  /** A line importing a new module collects that module's imports and then
      the module. */
  lemma CollectDescend(imps: seq<Option<string>>, k: nat, graph: map<string, seq<Option<string>>>, imported: seq<string>, stack: seq<string>, path: string)
    requires k < |imps| && imps[k] == Some(path)
    requires path !in imported && path !in stack && path in graph
    ensures Collect(imps, k, graph, imported, stack)
      == Collect(imps, k + 1, graph, Collect(graph[path], 0, graph, imported, stack + [path]) + [path], stack)
  {
  }

  /** The graph has an entry for every known module: the imports of its lines. */
  lemma GraphAt(modules: map<string, string>, path: string)
    ensures path in ImportGraph(modules) <==> path in modules
    ensures path in modules ==> ImportGraph(modules)[path] == Imports(Lines(modules[path]))
  {
  }

  /** Collecting the module named by line `k` and then the module itself
      continues the collection of the whole. */
  lemma CollectStep(imps: seq<Option<string>>, k: nat, graph: map<string, seq<Option<string>>>, imported: seq<string>, stack: seq<string>,
                    path: string, inner: seq<string>, total: seq<string>)
    requires k < |imps| && imps[k] == Some(path)
    requires path !in imported && path !in stack && path in graph
    requires Collect(imps, k, graph, imported, stack) == total
    requires inner == Collect(graph[path], 0, graph, imported, stack + [path])
    ensures Collect(imps, k + 1, graph, inner + [path], stack) == total
  {
    CollectDescend(imps, k, graph, imported, stack, path);
  }

  /** `collect_imports(source, modules, imported, stack)`: the vectors it
      mutates are passed in and handed back; each line is parsed as it is
      read. */
  method CollectImports(source: string, modules: map<string, string>, imported: seq<string>, stack: seq<string>)
    returns (importedOut: seq<string>, stackOut: seq<string>)
    ensures importedOut == Collect(Imports(Lines(source)), 0, ImportGraph(modules), imported, stack)
    ensures stackOut == stack
    decreases modules.Keys - Members(stack)
  {
    var lines := Lines(source);
    ghost var imps, graph := Imports(lines), ImportGraph(modules);
    ghost var total := Collect(imps, 0, graph, imported, stack);
    importedOut, stackOut := imported, stack;
    for k := 0 to |lines|
      invariant Collect(imps, k, graph, importedOut, stack) == total
      invariant stackOut == stack
    {
      var importPath := ImportOf(lines[k]);
      match importPath
      case None =>
        CollectSkip(imps, k, graph, importedOut, stack);
      case Some(path) =>
        GraphAt(modules, path);
        if path in importedOut || path in stackOut || path !in modules {
          CollectSkip(imps, k, graph, importedOut, stack);
        } else {
          MembersPush(modules.Keys, stack, path);
          var inner, pushed := CollectImports(modules[path], modules, importedOut, stackOut + [path]);
          CollectStep(imps, k, graph, importedOut, stack, path, inner, total);
          stackOut := pushed[..|pushed| - 1];
          importedOut := inner + [path];
        }
    }
  }

  /** Pushing a module not yet on the stack shrinks the modules left to visit. */
  lemma MembersPush(keys: set<string>, stack: seq<string>, path: string)
    requires path in keys && path !in stack
    ensures keys - Members(stack + [path]) < keys - Members(stack)
  {
    assert path in keys - Members(stack);
  }

  /** `result` extends `imported` only by known modules that are not on
      the stack and appear once. */
  predicate Fresh(imported: seq<string>, result: seq<string>, graph: map<string, seq<Option<string>>>, stack: seq<string>)
  {
    && imported <= result
    && forall i | |imported| <= i < |result| :: result[i] in graph && result[i] !in stack && result[i] !in result[..i]
  }

  /** The fresh modules of a nested collection, the module itself and the
      fresh modules after it are fresh together. */
  lemma FreshCompose(imported: seq<string>, inner: seq<string>, path: string, result: seq<string>,
                     graph: map<string, seq<Option<string>>>, stack: seq<string>)
    requires Fresh(imported, inner, graph, stack + [path])
    requires path in graph && path !in stack && path !in imported
    requires Fresh(inner + [path], result, graph, stack)
    ensures Fresh(imported, result, graph, stack)
  {
    assert path !in inner by {
      forall i | 0 <= i < |inner| ensures inner[i] != path {
        if i < |imported| { assert inner[i] == imported[i]; } else { assert inner[i] !in stack + [path]; }
      }
    }
    forall i | |imported| <= i < |result|
      ensures result[i] in graph && result[i] !in stack && result[i] !in result[..i]
    {
      if i < |inner| {
        assert result[i] == inner[i] && result[..i] == inner[..i];
        assert inner[i] !in stack + [path];
      } else if i == |inner| {
        assert result[i] == path && result[..i] == inner;
      }
    }
  }

  /** `collect_imports` only appends known modules, never one on the stack
      and never one twice. */
  lemma {:induction false} CollectFresh(imps: seq<Option<string>>, k: nat, graph: map<string, seq<Option<string>>>, imported: seq<string>, stack: seq<string>)
    requires k <= |imps|
    ensures Fresh(imported, Collect(imps, k, graph, imported, stack), graph, stack)
    decreases graph.Keys - Members(stack), |imps| - k
  {
    if k < |imps| {
      if Skipped(imps[k], graph, imported, stack) {
        CollectFresh(imps, k + 1, graph, imported, stack);
      } else {
        var path := imps[k].value;
        assert path in graph.Keys - Members(stack) && path !in graph.Keys - Members(stack + [path]);
        var inner := Collect(graph[path], 0, graph, imported, stack + [path]);
        CollectFresh(graph[path], 0, graph, imported, stack + [path]);
        CollectFresh(imps, k + 1, graph, inner + [path], stack);
        CollectDescend(imps, k, graph, imported, stack, path);
        FreshCompose(imported, inner, path, Collect(imps, k + 1, graph, inner + [path], stack), graph, stack);
      }
    }
  }

  /** No name appears twice. */
  predicate Distinct(names: seq<string>)
  {
    forall i, j | 0 <= i < j < |names| :: names[i] != names[j]
  }

  /** Starting from nothing, `collect_imports` yields distinct known
      modules. */
  lemma CollectDistinct(source: string, modules: map<string, string>)
    ensures var r := Collect(Imports(Lines(source)), 0, ImportGraph(modules), [], []);
      Distinct(r) && forall name <- r :: name in modules
  {
    var graph := ImportGraph(modules);
    var r := Collect(Imports(Lines(source)), 0, graph, [], []);
    CollectFresh(Imports(Lines(source)), 0, graph, [], []);
    forall i, j | 0 <= i < j < |r|
      ensures r[i] != r[j]
    {
      assert r[i] in r[..j];
    }
    forall name <- r
      ensures name in modules
    {
      var i :| 0 <= i < |r| && r[i] == name;
      assert name in graph;
    }
  }

  /** If `imp` names a known module, that module was collected or is on
      the stack. */
  predicate Resolved(imp: Option<string>, graph: map<string, seq<Option<string>>>, result: seq<string>, stack: seq<string>)
  {
    imp.Some? && imp.value in graph ==> imp.value in result || imp.value in stack
  }

  /** Every import from line `k` on is resolved. */
  predicate AllResolved(imps: seq<Option<string>>, k: nat, graph: map<string, seq<Option<string>>>, result: seq<string>, stack: seq<string>)
  {
    forall j | k <= j < |imps| :: Resolved(imps[j], graph, result, stack)
  }

  /** Every module appended after `imported` has all its imports resolved. */
  predicate DepsResolved(imported: seq<string>, result: seq<string>, graph: map<string, seq<Option<string>>>, stack: seq<string>)
  {
    forall i | |imported| <= i < |result| ::
      result[i] in graph ==> AllResolved(graph[result[i]], 0, graph, result, stack)
  }

  /** Resolution survives growing the collected and stacked names. */
  lemma ResolvedMono(imps: seq<Option<string>>, graph: map<string, seq<Option<string>>>,
                     r1: seq<string>, s1: seq<string>, r2: seq<string>, s2: seq<string>)
    requires AllResolved(imps, 0, graph, r1, s1)
    requires forall x <- r1 :: x in r2 || x in s2
    requires forall x <- s1 :: x in r2 || x in s2
    ensures AllResolved(imps, 0, graph, r2, s2)
  {
    forall j | 0 <= j < |imps|
      ensures Resolved(imps[j], graph, r2, s2)
    {
      assert Resolved(imps[j], graph, r1, s1);
    }
  }

  /** Resolution of a nested collection, the module itself and what
      follows carries over to the whole. */
  lemma CompleteCompose(imported: seq<string>, inner: seq<string>, path: string, result: seq<string>,
                        graph: map<string, seq<Option<string>>>, stack: seq<string>)
    requires path in graph && imported <= inner && inner + [path] <= result
    requires AllResolved(graph[path], 0, graph, inner, stack + [path])
    requires DepsResolved(imported, inner, graph, stack + [path])
    requires DepsResolved(inner + [path], result, graph, stack)
    ensures path in result && DepsResolved(imported, result, graph, stack)
  {
    assert result[|inner|] == path;
    assert forall x <- inner :: x in result by {
      forall x <- inner ensures x in result { var i :| 0 <= i < |inner| && inner[i] == x; assert result[i] == x; }
    }
    forall i | |imported| <= i < |result| && result[i] in graph
      ensures AllResolved(graph[result[i]], 0, graph, result, stack)
    {
      if i < |inner| {
        assert result[i] == inner[i];
        ResolvedMono(graph[inner[i]], graph, inner, stack + [path], result, stack);
      } else if i == |inner| {
        ResolvedMono(graph[path], graph, inner, stack + [path], result, stack);
      }
    }
  }

  /** Resolving line `k` and every later line resolves all lines from `k`. */
  lemma AllResolvedCons(imps: seq<Option<string>>, k: nat, graph: map<string, seq<Option<string>>>, result: seq<string>, stack: seq<string>)
    requires k < |imps|
    requires Resolved(imps[k], graph, result, stack) && AllResolved(imps, k + 1, graph, result, stack)
    ensures AllResolved(imps, k, graph, result, stack)
  {
  }

  /** Nothing a collection reaches is left out: every known module imported
      by the lines read, or by any module collected on the way, ends up
      collected unless it is on the stack. */
  lemma {:induction false} CollectComplete(imps: seq<Option<string>>, k: nat, graph: map<string, seq<Option<string>>>, imported: seq<string>, stack: seq<string>)
    requires k <= |imps|
    ensures var result := Collect(imps, k, graph, imported, stack);
      AllResolved(imps, k, graph, result, stack) && DepsResolved(imported, result, graph, stack)
    decreases graph.Keys - Members(stack), |imps| - k, 1
  {
    if k < |imps| {
      if Skipped(imps[k], graph, imported, stack) {
        CollectCompleteSkip(imps, k, graph, imported, stack);
      } else {
        CollectCompleteDescend(imps, k, graph, imported, stack, imps[k].value);
      }
    }
  }

  /** `CollectComplete` for a line that collects nothing. */
  lemma {:induction false} CollectCompleteSkip(imps: seq<Option<string>>, k: nat, graph: map<string, seq<Option<string>>>, imported: seq<string>, stack: seq<string>)
    requires k < |imps| && Skipped(imps[k], graph, imported, stack)
    ensures var result := Collect(imps, k, graph, imported, stack);
      AllResolved(imps, k, graph, result, stack) && DepsResolved(imported, result, graph, stack)
    decreases graph.Keys - Members(stack), |imps| - k, 0
  {
    var result := Collect(imps, k + 1, graph, imported, stack);
    CollectComplete(imps, k + 1, graph, imported, stack);
    CollectFresh(imps, k + 1, graph, imported, stack);
    CollectSkip(imps, k, graph, imported, stack);
    assert Resolved(imps[k], graph, result, stack) by {
      if imps[k].Some? && imps[k].value in imported {
        assert imported <= result;
      }
    }
    AllResolvedCons(imps, k, graph, result, stack);
  }

  /** `CollectComplete` for a line that collects a new module. */
  lemma {:induction false} CollectCompleteDescend(imps: seq<Option<string>>, k: nat, graph: map<string, seq<Option<string>>>, imported: seq<string>, stack: seq<string>, path: string)
    requires k < |imps| && imps[k] == Some(path)
    requires path !in imported && path !in stack && path in graph
    ensures var result := Collect(imps, k, graph, imported, stack);
      AllResolved(imps, k, graph, result, stack) && DepsResolved(imported, result, graph, stack)
    decreases graph.Keys - Members(stack), |imps| - k, 0
  {
    assert path in graph.Keys - Members(stack) && path !in graph.Keys - Members(stack + [path]);
    var inner := Collect(graph[path], 0, graph, imported, stack + [path]);
    var result := Collect(imps, k + 1, graph, inner + [path], stack);
    CollectComplete(graph[path], 0, graph, imported, stack + [path]);
    CollectFresh(graph[path], 0, graph, imported, stack + [path]);
    CollectComplete(imps, k + 1, graph, inner + [path], stack);
    CollectFresh(imps, k + 1, graph, inner + [path], stack);
    CollectDescend(imps, k, graph, imported, stack, path);
    CompleteCompose(imported, inner, path, result, graph, stack);
    assert Resolved(imps[k], graph, result, stack);
    AllResolvedCons(imps, k, graph, result, stack);
  }

  // ---------------------------------------------------------------- dependency order

  /** If `imp` names a known module, that module has a rank below `r`. */
  predicate Below(imp: Option<string>, graph: map<string, seq<Option<string>>>, rank: map<string, nat>, r: nat)
  {
    imp.Some? && imp.value in graph ==> imp.value in rank && rank[imp.value] < r
  }

  /** Every import from line `k` on names a module ranked below `r`. */
  predicate BelowAll(imps: seq<Option<string>>, k: nat, graph: map<string, seq<Option<string>>>, rank: map<string, nat>, r: nat)
  {
    forall j | k <= j < |imps| :: Below(imps[j], graph, rank, r)
  }

  /** `rank` witnesses that the imports between known modules form no
      cycle: every module imports only modules of smaller rank. */
  predicate Acyclic(graph: map<string, seq<Option<string>>>, rank: map<string, nat>)
  {
    forall m | m in graph :: m in rank && BelowAll(graph[m], 0, graph, rank, rank[m])
  }

  /** Every module appended after `imported` comes after all the known
      modules it imports. */
  predicate DepsBefore(imported: seq<string>, result: seq<string>, graph: map<string, seq<Option<string>>>)
  {
    forall i | |imported| <= i < |result| ::
      result[i] in graph ==> AllResolved(graph[result[i]], 0, graph, result[..i], [])
  }

  /** Without cycles, `collect_imports` is a post-order: it appends a
      module only after the modules it imports. */
  lemma {:induction false} CollectPostOrder(imps: seq<Option<string>>, k: nat, graph: map<string, seq<Option<string>>>, imported: seq<string>,
                                            stack: seq<string>, rank: map<string, nat>, r: nat)
    requires k <= |imps| && Acyclic(graph, rank) && BelowAll(imps, k, graph, rank, r)
    requires forall s <- stack :: s in rank && r <= rank[s]
    ensures DepsBefore(imported, Collect(imps, k, graph, imported, stack), graph)
    decreases graph.Keys - Members(stack), |imps| - k, 1
  {
    if k < |imps| {
      if Skipped(imps[k], graph, imported, stack) {
        CollectSkip(imps, k, graph, imported, stack);
        CollectPostOrder(imps, k + 1, graph, imported, stack, rank, r);
      } else {
        CollectPostOrderDescend(imps, k, graph, imported, stack, rank, r, imps[k].value);
      }
    }
  }

  /** `CollectPostOrder` for a line that collects a new module. */
  lemma {:induction false} CollectPostOrderDescend(imps: seq<Option<string>>, k: nat, graph: map<string, seq<Option<string>>>, imported: seq<string>,
                                                   stack: seq<string>, rank: map<string, nat>, r: nat, path: string)
    requires k < |imps| && imps[k] == Some(path)
    requires path !in imported && path !in stack && path in graph
    requires Acyclic(graph, rank) && BelowAll(imps, k, graph, rank, r)
    requires forall s <- stack :: s in rank && r <= rank[s]
    ensures DepsBefore(imported, Collect(imps, k, graph, imported, stack), graph)
    decreases graph.Keys - Members(stack), |imps| - k, 0
  {
    assert path in graph.Keys - Members(stack) && path !in graph.Keys - Members(stack + [path]);
    assert Below(imps[k], graph, rank, r);
    var inner := Collect(graph[path], 0, graph, imported, stack + [path]);
    var result := Collect(imps, k + 1, graph, inner + [path], stack);
    CollectDescend(imps, k, graph, imported, stack, path);
    CollectPostOrder(graph[path], 0, graph, imported, stack + [path], rank, rank[path]);
    CollectPostOrder(imps, k + 1, graph, inner + [path], stack, rank, r);
    CollectComplete(graph[path], 0, graph, imported, stack + [path]);
    CollectFresh(graph[path], 0, graph, imported, stack + [path]);
    CollectFresh(imps, k + 1, graph, inner + [path], stack);
    ImportsCollected(graph[path], graph, inner, stack + [path], rank);
    PostOrderCompose(imported, inner, path, result, graph);
  }

  /** Resolved imports ranked below every module on the stack were
      collected. */
  lemma ImportsCollected(imps: seq<Option<string>>, graph: map<string, seq<Option<string>>>, inner: seq<string>, stack: seq<string>, rank: map<string, nat>)
    requires stack != [] && stack[|stack| - 1] in rank
    requires forall s <- stack :: s in rank && rank[stack[|stack| - 1]] <= rank[s]
    requires AllResolved(imps, 0, graph, inner, stack)
    requires BelowAll(imps, 0, graph, rank, rank[stack[|stack| - 1]])
    ensures AllResolved(imps, 0, graph, inner, [])
  {
    forall j | 0 <= j < |imps|
      ensures Resolved(imps[j], graph, inner, [])
    {
      assert Resolved(imps[j], graph, inner, stack) && Below(imps[j], graph, rank, rank[stack[|stack| - 1]]);
    }
  }

  /** Post-order of a nested collection, the module itself and what
      follows carries over to the whole. */
  lemma PostOrderCompose(imported: seq<string>, inner: seq<string>, path: string, result: seq<string>, graph: map<string, seq<Option<string>>>)
    requires path in graph && imported <= inner && inner + [path] <= result
    requires AllResolved(graph[path], 0, graph, inner, [])
    requires DepsBefore(imported, inner, graph)
    requires DepsBefore(inner + [path], result, graph)
    ensures DepsBefore(imported, result, graph)
  {
    forall i | |imported| <= i < |result| && result[i] in graph
      ensures AllResolved(graph[result[i]], 0, graph, result[..i], [])
    {
      if i < |inner| {
        assert result[..i] == inner[..i];
      } else if i == |inner| {
        assert result[..i] == inner && result[i] == path;
      }
    }
  }

  /** Everything collected from lines ranked below `r` ranks below `r`. */
  lemma {:induction false} CollectRanked(imps: seq<Option<string>>, k: nat, graph: map<string, seq<Option<string>>>, imported: seq<string>,
                                         stack: seq<string>, rank: map<string, nat>, r: nat)
    requires k <= |imps| && Acyclic(graph, rank) && BelowAll(imps, k, graph, rank, r)
    requires forall x <- imported :: x in rank && rank[x] < r
    ensures forall x <- Collect(imps, k, graph, imported, stack) :: x in rank && rank[x] < r
    decreases graph.Keys - Members(stack), |imps| - k
  {
    if k < |imps| {
      if Skipped(imps[k], graph, imported, stack) {
        CollectSkip(imps, k, graph, imported, stack);
        CollectRanked(imps, k + 1, graph, imported, stack, rank, r);
      } else {
        var path := imps[k].value;
        assert path in graph.Keys - Members(stack) && path !in graph.Keys - Members(stack + [path]);
        assert Below(imps[k], graph, rank, r);
        var inner := Collect(graph[path], 0, graph, imported, stack + [path]);
        CollectDescend(imps, k, graph, imported, stack, path);
        BelowMono(graph[path], graph, rank, rank[path], r);
        CollectRanked(graph[path], 0, graph, imported, stack + [path], rank, r);
        CollectRanked(imps, k + 1, graph, inner + [path], stack, rank, r);
      }
    }
  }

  /** A bound on import ranks can be raised. */
  lemma BelowMono(imps: seq<Option<string>>, graph: map<string, seq<Option<string>>>, rank: map<string, nat>, p: nat, r: nat)
    requires BelowAll(imps, 0, graph, rank, p) && p <= r
    ensures BelowAll(imps, 0, graph, rank, r)
  {
    forall j | 0 <= j < |imps|
      ensures Below(imps[j], graph, rank, r)
    {
      assert Below(imps[j], graph, rank, p);
    }
  }

  /** The template module's collection, when the imports form no cycle:
      every collected module comes after the modules it imports, and the
      template itself is not among them. */
  lemma CollectTemplatePostOrder(main: string, graph: map<string, seq<Option<string>>>, rank: map<string, nat>)
    requires main in graph && Acyclic(graph, rank)
    ensures var r := Collect(graph[main], 0, graph, [], []);
      && (forall i | 0 <= i < |r| :: r[i] in graph && AllResolved(graph[r[i]], 0, graph, r[..i], []))
      && main !in r
  {
    var r := Collect(graph[main], 0, graph, [], []);
    CollectPostOrder(graph[main], 0, graph, [], [], rank, rank[main]);
    CollectFresh(graph[main], 0, graph, [], []);
    CollectRanked(graph[main], 0, graph, [], [], rank, rank[main]);
  }

  // ---------------------------------------------------------------- stripping directives

  /** `line.chars().filter(|&c| c == ch).count()`. */
  function CountChar(line: string, ch: char): (n: nat)
    ensures n <= |line|
  {
    if line == [] then 0 else CountChar(line[..|line| - 1], ch) + (if line[|line| - 1] == ch then 1 else 0)
  }

  /** A character that does not occur is counted zero times. */
  lemma {:induction false} CountCharAbsent(line: string, ch: char)
    requires ch !in line
    ensures CountChar(line, ch) == 0
  {
    if line != [] {
      assert forall c <- line[..|line| - 1] :: c in line;
      CountCharAbsent(line[..|line| - 1], ch);
    }
  }

  /** Opening minus closing braces on a line. */
  function BraceDelta(line: string): int
  {
    CountChar(line, '{') - CountChar(line, '}')
  }

  /** A directive line: once trimmed it begins with `#define_import_path`
      or `#import`. */
  predicate IsDirective(line: string)
  {
    DEFINE_IMPORT_PATH <= Trim(line) || IMPORT <= Trim(line)
  }

  /** What `strip_directives` carries from line to line: whether it is
      inside a multi-line braced import, and the brace depth. */
  datatype ScanState = ScanState(inBracedImport: bool, braceDepth: int)

  /** The state after the lines read so far and the lines kept. */
  datatype Scanned = Scanned(state: ScanState, kept: seq<string>)

  /** One line of `strip_directives`: the new state, and whether the line
      is kept. A `#define_import_path` line is dropped. An `#import` line is
      dropped and resets the depth to its own brace balance, entering a
      braced import when that is positive (it never leaves one). A line
      inside a braced import is dropped and moves the depth by its braces;
      the import ends when the depth falls to zero or below. Any other line
      is kept. */
  function ScanLine(st: ScanState, line: string): (ScanState, bool)
  {
    var trimmed := Trim(line);
    if DEFINE_IMPORT_PATH <= trimmed then (st, false)
    else if IMPORT <= trimmed then
      var depth := BraceDelta(line);
      (ScanState(st.inBracedImport || depth > 0, depth), false)
    else if st.inBracedImport then
      var depth := st.braceDepth + BraceDelta(line);
      (ScanState(depth > 0, depth), false)
    else (st, true)
  }

  /** `strip_directives` over the first lines of a source. */
  function Scan(lines: seq<string>): (r: Scanned)
    ensures |r.kept| <= |lines|
  {
    if lines == [] then Scanned(ScanState(false, 0), [])
    else
      var prev := Scan(lines[..|lines| - 1]);
      var last := lines[|lines| - 1];
      var (st, keep) := ScanLine(prev.state, last);
      Scanned(st, if keep then prev.kept + [last] else prev.kept)
  }

  /** The brace-counting loop for a line inside a braced import: the
      depth moved by one per `{` and back by one per `}`. */
  method AdvanceDepth(line: string, depth: int) returns (newDepth: int)
    ensures newDepth == depth + BraceDelta(line)
  {
    newDepth := depth;
    for j := 0 to |line|
      invariant newDepth == depth + CountChar(line[..j], '{') - CountChar(line[..j], '}')
    {
      assert line[..j + 1][..j] == line[..j];
      if line[j] == '{' {
        newDepth := newDepth + 1;
      } else if line[j] == '}' {
        newDepth := newDepth - 1;
      }
    }
    assert line[..|line|] == line;
  }

  /** `Scan` of one more line. */
  lemma ScanStep(lines: seq<string>, k: nat)
    requires k < |lines|
    ensures Scan(lines[..k + 1]) ==
      var prev := Scan(lines[..k]);
      var (st, keep) := ScanLine(prev.state, lines[k]);
      Scanned(st, if keep then prev.kept + [lines[k]] else prev.kept)
  {
    assert lines[..k + 1][..k] == lines[..k];
  }

  /** The text `strip_directives` returns: the kept lines joined by line
      feeds. */
  function Stripped(source: string): string
  {
    Join(Scan(Lines(source)).kept, "\n")
  }

  /** `strip_directives(source)`. */
  method StripDirectives(source: string) returns (stripped: string)
    ensures stripped == Stripped(source)
  {
    var lines := Lines(source);
    var output: seq<string> := [];
    var inBracedImport, braceDepth := false, 0;
    for k := 0 to |lines|
      invariant Scan(lines[..k]) == Scanned(ScanState(inBracedImport, braceDepth), output)
    {
      var line := lines[k];
      ScanStep(lines, k);
      var trimmed := Trim(line);
      if DEFINE_IMPORT_PATH <= trimmed {
        continue;
      }
      if IMPORT <= trimmed {
        braceDepth := CountChar(line, '{') - CountChar(line, '}');
        if braceDepth > 0 {
          inBracedImport := true;
        }
        continue;
      }
      if inBracedImport {
        braceDepth := AdvanceDepth(line, braceDepth);
        if braceDepth <= 0 {
          inBracedImport := false;
        }
        continue;
      }
      output := output + [line];
    }
    assert lines[..|lines|] == lines;
    stripped := Join(output, "\n");
  }

  /** The lines that are not directives, in order. */
  function NonDirectives(lines: seq<string>): (r: seq<string>)
    ensures |r| <= |lines|
  {
    if lines == [] then []
    else
      var init := NonDirectives(lines[..|lines| - 1]);
      var last := lines[|lines| - 1];
      if IsDirective(last) then init else init + [last]
  }

  /** A line that `ScanLine` keeps is not a directive. */
  lemma ScanLineKeeps(st: ScanState, line: string)
    ensures ScanLine(st, line).1 ==> !IsDirective(line) && ScanLine(st, line).0 == st
    ensures IsDirective(line) ==> !ScanLine(st, line).1
  {
  }

  /** `strip_directives` keeps only lines that are not directives, and
      keeps them in their original order. */
  lemma {:induction false} ScanKeepsNonDirectives(lines: seq<string>)
    ensures SubsequenceOf(Scan(lines).kept, NonDirectives(lines))
  {
    if lines != [] {
      var init := lines[..|lines| - 1];
      var last := lines[|lines| - 1];
      ScanKeepsNonDirectives(init);
      ScanLineKeeps(Scan(init).state, last);
      SubsequenceSnoc(Scan(init).kept, NonDirectives(init), last);
    }
  }

  /** No `#import` line opens more braces than it closes. */
  predicate SingleLineImports(lines: seq<string>)
  {
    forall l <- lines :: IMPORT <= Trim(l) ==> BraceDelta(l) <= 0
  }

  /** Without a multi-line braced import, `strip_directives` keeps exactly
      the lines that are not directives. */
  lemma {:induction false} ScanSingleLineImports(lines: seq<string>)
    requires SingleLineImports(lines)
    ensures Scan(lines).kept == NonDirectives(lines)
    ensures !Scan(lines).state.inBracedImport
  {
    if lines != [] {
      var init, last := lines[..|lines| - 1], lines[|lines| - 1];
      assert forall l <- init :: l in lines;
      ScanSingleLineImports(init);
      assert init + [last] == lines;
      if DEFINE_IMPORT_PATH <= Trim(last) {
        ScanDefineLine(init, last);
      } else if IMPORT <= Trim(last) {
        ScanImportLine(init, last);
      } else {
        ScanPlainLine(init, last);
      }
    }
  }

  /** An `#import` line is not a `#define_import_path` line. */
  lemma ImportIsNotDefine(t: string)
    requires IMPORT <= t
    ensures !(DEFINE_IMPORT_PATH <= t)
  {
    assert t[1] == IMPORT[1] != DEFINE_IMPORT_PATH[1];
  }

  /** A `#define_import_path` line is dropped and changes nothing. */
  lemma ScanDefineLine(lines: seq<string>, line: string)
    requires DEFINE_IMPORT_PATH <= Trim(line)
    ensures Scan(lines + [line]) == Scan(lines)
  {
    assert (lines + [line])[..|lines|] == lines;
  }

  /** An `#import` line is dropped and sets the depth to its own brace
      balance; the scan enters a braced import when that is positive. */
  lemma ScanImportLine(lines: seq<string>, line: string)
    requires IMPORT <= Trim(line)
    ensures Scan(lines + [line]) == Scanned(
      ScanState(Scan(lines).state.inBracedImport || BraceDelta(line) > 0, BraceDelta(line)),
      Scan(lines).kept)
  {
    ImportIsNotDefine(Trim(line));
    assert (lines + [line])[..|lines|] == lines;
  }

  /** Inside a braced import a line is dropped and moves the depth by its
      braces; the import ends once the depth is no longer positive. */
  lemma ScanInsideImport(lines: seq<string>, line: string)
    requires Scan(lines).state.inBracedImport && !IsDirective(line)
    ensures var depth := Scan(lines).state.braceDepth + BraceDelta(line);
      Scan(lines + [line]) == Scanned(ScanState(depth > 0, depth), Scan(lines).kept)
  {
    assert (lines + [line])[..|lines|] == lines;
  }

  /** Outside a braced import a line that is not a directive is kept. */
  lemma ScanPlainLine(lines: seq<string>, line: string)
    requires !Scan(lines).state.inBracedImport && !IsDirective(line)
    ensures Scan(lines + [line]) == Scanned(Scan(lines).state, Scan(lines).kept + [line])
  {
    assert (lines + [line])[..|lines|] == lines;
  }

  /** Appending four elements one at a time. */
  lemma AppendFour<T>(s: seq<T>, a: T, b: T, c: T, d: T)
    ensures s + [a, b, c, d] == (((s + [a]) + [b]) + [c]) + [d]
  {
  }

  /** A braced import over three lines (the `#import` line opening one
      brace, a line inside, the line closing it) is dropped whole, and the
      scan is out of the import afterwards, so that the next ordinary line
      is kept again. */
  lemma ScanBracedImport(lines: seq<string>, open: string, inner: string, close: string, next: string)
    requires !Scan(lines).state.inBracedImport
    requires IMPORT <= Trim(open) && BraceDelta(open) == 1
    requires !IsDirective(inner) && BraceDelta(inner) == 0
    requires !IsDirective(close) && BraceDelta(close) == -1
    requires !IsDirective(next)
    ensures Scan(lines + [open, inner, close, next]) == Scanned(ScanState(false, 0), Scan(lines).kept + [next])
  {
    var started := lines + [open];
    ScanImportLine(lines, open);
    var inside := started + [inner];
    ScanInsideImport(started, inner);
    var closed := inside + [close];
    ScanInsideImport(inside, close);
    ScanPlainLine(closed, next);
    AppendFour(lines, open, inner, close, next);
  }

  // ---------------------------------------------------------------- composing

  /** The text `compose_shader` writes before the main module for the
      given imported modules: each known module stripped and followed by a
      blank line, in order. */
  function Prelude(names: seq<string>, modules: map<string, string>): string
  {
    if names == [] then ""
    else
      var last := names[|names| - 1];
      Prelude(names[..|names| - 1], modules) + (if last in modules then Stripped(modules[last]) + "\n\n" else "")
  }

  /** The modules `compose_shader` inlines for a source. */
  function ComposedImports(source: string, modules: map<string, string>): seq<string>
  {
    Collect(Imports(Lines(source)), 0, ImportGraph(modules), [], [])
  }

  /** `compose_shader(source, modules)`: the collected modules stripped and
      separated by blank lines, then the stripped main source. */
  method ComposeShader(source: string, modules: map<string, string>) returns (output: string)
    ensures output == Prelude(ComposedImports(source, modules), modules) + Stripped(source)
  {
    var imported, _ := CollectImports(source, modules, [], []);
    output := "";
    for k := 0 to |imported|
      invariant output == Prelude(imported[..k], modules)
    {
      assert imported[..k + 1][..k] == imported[..k];
      var name := imported[k];
      if name in modules {
        var stripped := StripDirectives(modules[name]);
        output := output + stripped;
        output := output + "\n\n";
      }
    }
    assert imported[..|imported|] == imported;
    var main := StripDirectives(source);
    output := output + main;
  }

  /** The concatenation of a sequence of texts. */
  function Concat(parts: seq<string>): string
  {
    if parts == [] then "" else Concat(parts[..|parts| - 1]) + parts[|parts| - 1]
  }

  /** Each module's stripped text with its blank line. */
  function Sections(names: seq<string>, modules: map<string, string>): (r: seq<string>)
    requires forall name <- names :: name in modules
    ensures |r| == |names|
  {
    seq(|names|, i requires 0 <= i < |names| => Stripped(modules[names[i]]) + "\n\n")
  }

  /** When every name is a known module, the prelude has one section per
      name, in order: none is dropped. */
  lemma {:induction false} PreludeSections(names: seq<string>, modules: map<string, string>)
    requires forall name <- names :: name in modules
    ensures Prelude(names, modules) == Concat(Sections(names, modules))
  {
    if names != [] {
      var init := names[..|names| - 1];
      assert forall name <- init :: name in names;
      PreludeSections(init, modules);
      var all := Sections(names, modules);
      assert all[..|names| - 1] == Sections(init, modules);
      assert Concat(all) == Concat(all[..|names| - 1]) + all[|names| - 1];
    }
  }

  /** The composed shader holds one section for each module the source
      needs, each module once, followed by the stripped source. */
  lemma ComposeSections(source: string, modules: map<string, string>)
    ensures var imported := ComposedImports(source, modules);
      && Distinct(imported)
      && (forall name <- imported :: name in modules)
      && Prelude(imported, modules) + Stripped(source)
         == Concat(Sections(imported, modules)) + Stripped(source)
  {
    CollectDistinct(source, modules);
    PreludeSections(ComposedImports(source, modules), modules);
  }
}
