/** route-extract: reads the generated route tree and lists its routes.

    The input is the file's lines. The first pass collects the route imports; the
    second walks the `FileRoutesByPath` interface, counting braces. */
module RouteExtract {
  import opened Wrappers
  import opened GoStrings

  datatype Route = Route(pattern: string, file: string, dynamic: bool)

  const IMPORT := "import { Route as "
  const FROM := " from './routes/"
  const HEADER := "interface FileRoutesByPath {"
  const KEY_END := "': {"
  const PRELOADER := "preLoaderRoute: typeof "

  /** Slicing the key line panics when the line is the bare key end. */
  datatype Outcome = Routes(routes: seq<Route>) | Panic

  // ------------------------------------------------------------- specification

  function FilePath(path: string): string {
    "ui/src/routes/" + path + ".tsx"
  }

  /** Pass 1 on one line. */
  function ImportStep(imports: map<string, string>, line: string): map<string, string> {
    if !HasPrefix(line, IMPORT) then imports
    else
      var rest := line[|IMPORT|..];
      var space := Index(rest, " ");
      var from := Index(line, FROM);
      if space.None? || from.None? then imports
      else
        var pathPart := line[from.value + |FROM|..];
        var quote := Index(pathPart, "'");
        if quote.None? then imports
        else imports[rest[..space.value] := FilePath(pathPart[..quote.value])]
  }

  function ImportMap(imports: map<string, string>, lines: seq<string>): map<string, string>
    decreases |lines|
  {
    if lines == [] then imports else ImportMap(ImportStep(imports, lines[0]), lines[1..])
  }

  datatype Scan = Scan(
    inBlock: bool, depth: int, pattern: string, imp: string, routes: seq<Route>, panicked: bool)

  const START := Scan(false, 0, "", "", [], false)

  predicate IsKey(st: Scan, trimmed: string) {
    st.depth == 1 && HasPrefix(trimmed, "'") && HasSuffix(trimmed, KEY_END)
  }

  /** Pass 2 on one line inside the block. */
  function ScanEntryLine(imports: map<string, string>, st: Scan, line: string): Scan {
    var trimmed := TrimSpace(line);
    if IsKey(st, trimmed) && |trimmed| == 4 then st.(panicked := true)
    else
      var pattern := if IsKey(st, trimmed) then trimmed[1..|trimmed| - 4] else st.pattern;
      var imp := if HasPrefix(trimmed, PRELOADER) then TrimPrefix(trimmed, PRELOADER) else st.imp;
      var depth := st.depth + Count(line, '{') - Count(line, '}');
      if depth == 1 && pattern != "" && imp != "" then
        var file := if imp in imports then imports[imp] else "";
        Scan(true, depth, "", "", st.routes + [Route(pattern, file, '$' in pattern)], false)
      else Scan(true, depth, pattern, imp, st.routes, false)
  }

  function ScanLine(imports: map<string, string>, st: Scan, line: string): Scan {
    if !st.inBlock then
      if TrimSpace(line) == HEADER then st.(inBlock := true, depth := 1) else st
    else ScanEntryLine(imports, st, line)
  }

  predicate Stopped(st: Scan) {
    st.panicked || (st.inBlock && st.depth == 0)
  }

  function ScanAll(imports: map<string, string>, st: Scan, lines: seq<string>): Scan
    decreases |lines|
  {
    if lines == [] || Stopped(st) then st else ScanAll(imports, ScanLine(imports, st, lines[0]), lines[1..])
  }

  function Extract(lines: seq<string>): Outcome {
    var end := ScanAll(ImportMap(map[], lines), START, lines);
    if end.panicked then Panic else Routes(end.routes)
  }

  // --------------------------------------------------------------- the program

  method ReadImports(lines: seq<string>) returns (imports: map<string, string>)
    ensures imports == ImportMap(map[], lines)
  {
    imports := map[];
    for i := 0 to |lines|
      invariant ImportMap(imports, lines[i..]) == ImportMap(map[], lines)
    {
      var line := lines[i];
      assert lines[i..][0] == line && lines[i..][1..] == lines[i + 1..];
      if !HasPrefix(line, IMPORT) { continue; }
      var rest := line[|IMPORT|..];
      var space := Index(rest, " ");
      if space.None? { continue; }
      var name := rest[..space.value];
      var from := Index(line, FROM);
      if from.None? { continue; }
      var pathPart := line[from.value + |FROM|..];
      var quote := Index(pathPart, "'");
      if quote.None? { continue; }
      imports := imports[name := FilePath(pathPart[..quote.value])];
    }
  }

  lemma KeyIsLongEnough(s: string)
    ensures HasSuffix(s, KEY_END) ==> |s| >= 4
  {
  }

  /** Reading one more line of the scan. */
  lemma ScanNext(imports: map<string, string>, st: Scan, lines: seq<string>, i: nat)
    requires i < |lines| && !Stopped(st)
    ensures ScanAll(imports, st, lines[i..]) == ScanAll(imports, ScanLine(imports, st, lines[i]), lines[i + 1..])
    ensures Stopped(ScanLine(imports, st, lines[i]))
            ==> ScanAll(imports, st, lines[i..]) == ScanLine(imports, st, lines[i])
  {
    hide ScanLine;
    assert lines[i..][0] == lines[i] && lines[i..][1..] == lines[i + 1..];
  }

  method ExtractRoutes(lines: seq<string>) returns (r: Outcome)
    ensures r == Extract(lines)
  {
    hide TrimSpace, Count, ImportMap, HasPrefix, HasSuffix, TrimPrefix;
    var imports := ReadImports(lines);
    var routes, inBlock, depth, pattern, imp := [], false, 0, "", "";
    var i := 0;
    while i < |lines|
      invariant i <= |lines|
      invariant var st := Scan(inBlock, depth, pattern, imp, routes, false);
                !Stopped(st) && ScanAll(imports, st, lines[i..]) == ScanAll(imports, START, lines)
    {
      var line := lines[i];
      ghost var st := Scan(inBlock, depth, pattern, imp, routes, false);
      ScanNext(imports, st, lines, i);
      i := i + 1;
      var trimmed := TrimSpace(line);
      KeyIsLongEnough(trimmed);
      hide ScanAll;
      if !inBlock {
        if trimmed == HEADER { inBlock, depth := true, 1; }
        continue;
      }
      if depth == 1 && HasPrefix(trimmed, "'") && HasSuffix(trimmed, KEY_END) {
        if |trimmed| == 4 { return Panic; }
        pattern := trimmed[1..|trimmed| - 4];
      }
      if HasPrefix(trimmed, PRELOADER) {
        imp := TrimPrefix(trimmed, PRELOADER);
      }
      depth := depth + Count(line, '{') - Count(line, '}');
      if depth == 1 && pattern != "" && imp != "" {
        var file := if imp in imports then imports[imp] else "";
        routes := routes + [Route(pattern, file, '$' in pattern)];
        pattern, imp := "", "";
      }
      assert ScanLine(imports, st, line) == Scan(inBlock, depth, pattern, imp, routes, false);
      if depth == 0 {
        return Routes(routes);
      }
    }
    r := Routes(routes);
  }

  // ------------------------------------------------------------ the file format

  datatype Import = Import(name: string, path: string)

  /** One interface entry: its key, the lines around its preLoaderRoute line, and
      the import that line names, if the entry has such a line. */
  datatype Entry = Entry(pattern: string, before: seq<string>, importName: Option<string>, after: seq<string>)

  datatype RouteTree = RouteTree(imports: seq<Import>, preamble: seq<string>, entries: seq<Entry>, tail: seq<string>)

  function ImportLine(imp: Import): string {
    IMPORT + imp.name + " }" + FROM + imp.path + "'"
  }

  function KeyLine(pattern: string): string {
    "    " + ("'" + pattern + KEY_END)
  }

  function PreloaderLine(name: string): string {
    "      " + (PRELOADER + name)
  }

  function NameLines(name: Option<string>): seq<string> {
    if name.Some? then [PreloaderLine(name.value)] else []
  }

  function EntryLines(e: Entry): seq<string> {
    [KeyLine(e.pattern)] + e.before + NameLines(e.importName) + e.after + ["    }"]
  }

  function AllEntryLines(entries: seq<Entry>): seq<string> {
    if entries == [] then [] else EntryLines(entries[0]) + AllEntryLines(entries[1..])
  }

  function ImportLines(imports: seq<Import>): seq<string> {
    if imports == [] then [] else [ImportLine(imports[0])] + ImportLines(imports[1..])
  }

  function Render(doc: RouteTree): seq<string> {
    ImportLines(doc.imports) + doc.preamble + ["  " + HEADER] + AllEntryLines(doc.entries) + ["  }"] + doc.tail
  }

  predicate Balanced(s: string) {
    Count(s, '{') == Count(s, '}')
  }

  ghost predicate WellFormedImport(imp: Import) {
    ' ' !in imp.name && '\'' !in imp.path
  }

  /** A line inside an entry that is neither an import nor a preLoaderRoute. */
  ghost predicate BodyLine(line: string) {
    Balanced(line) && !HasPrefix(line, IMPORT) && !HasPrefix(TrimSpace(line), PRELOADER)
  }

  ghost predicate PlainName(name: string) {
    name != "" && Balanced(name) && forall c :: c in name ==> !IsSpace(c)
  }

  ghost predicate WellFormedEntry(e: Entry) {
    && e.pattern != "" && Balanced(e.pattern)
    && (e.importName.Some? ==> PlainName(e.importName.value))
    && (forall line :: line in e.before || line in e.after ==> BodyLine(line))
  }

  ghost predicate WellFormed(doc: RouteTree) {
    && (forall i :: 0 <= i < |doc.imports| ==> WellFormedImport(doc.imports[i]))
    && DistinctNames(doc.imports)
    && (forall line :: line in doc.preamble ==> !HasPrefix(line, IMPORT) && TrimSpace(line) != HEADER)
    && (forall i :: 0 <= i < |doc.entries| ==> WellFormedEntry(doc.entries[i]))
    && (forall line :: line in doc.tail ==> !HasPrefix(line, IMPORT))
  }

  // -------------------------------------------------------- pass 1 on its format

  /** The import line's parts are where the parser looks for them. */
  lemma ImportLineParses(imports: map<string, string>, imp: Import)
    requires WellFormedImport(imp)
    ensures ImportStep(imports, ImportLine(imp)) == imports[imp.name := "ui/src/routes/" + imp.path + ".tsx"]
  {
    var line := ImportLine(imp);
    var rest := line[|IMPORT|..];
    assert HasPrefix(line, IMPORT);
    assert rest == imp.name + [' '] + ("}" + FROM + imp.path + "'");
    IndexOfChar(imp.name, ' ', "}" + FROM + imp.path + "'");
    assert rest[..|imp.name|] == imp.name;
    FromIsFirst(imp);
    var k := |IMPORT| + |imp.name| + 2;
    assert line[k + |FROM|..] == imp.path + ['\''] + "";
    IndexOfChar(imp.path, '\'', "");
    assert (imp.path + ['\''] + "")[..|imp.path|] == imp.path;
  }

  /** The line imports `name` from `path`: after its opening words the name ends at the
      first space, and after the first `from` the path ends at the first quote. */
  ghost predicate ImportsAs(line: string, name: string, path: string) {
    && ' ' !in name && (exists post :: line == "import { Route as " + name + " " + post)
    && '\'' !in path && exists k: nat, post :: FirstAt(line, " from './routes/", k) && line[k..] == " from './routes/" + path + "'" + post
  }

  lemma PrefixIsCut(p: string, name: string, c: char, post: string)
    requires c !in name
    ensures var line := p + name + [c] + post; var rest := line[|p|..];
            HasPrefix(line, p) && Index(rest, [c]) == Some(|name|) && rest[..|name|] == name
  {
    hide Index;
    IndexOfChar(name, c, post);
    var line := p + name + [c] + post;
    assert line[..|p|] == p && line[|p|..] == name + [c] + post;
  }

  lemma PathIsCut(line: string, k: nat, path: string)
    requires '\'' !in path && k <= |line| && exists post :: line[k..] == FROM + path + "'" + post
    ensures k + |FROM| <= |line|
    ensures Index(line[k + |FROM|..], "'") == Some(|path|) && line[k + |FROM|..][..|path|] == path
  {
    var post :| line[k..] == FROM + path + "'" + post;
    PrefixIsCut(FROM, path, '\'', post);
    hide Index;
    assert line[k + |FROM|..] == line[k..][|FROM|..];
  }

  lemma ImportsAsParses(imports: map<string, string>, line: string, name: string, path: string)
    requires ImportsAs(line, name, path)
    ensures ImportStep(imports, line) == imports[name := "ui/src/routes/" + path + ".tsx"]
  {
    var k: nat, tail :| FirstAt(line, FROM, k) && line[k..] == FROM + path + "'" + tail;
    IndexExact(line, FROM);
    NameIsCut(line, name);
    PathIsCut(line, k, path);
    hide Index, FirstAt, ImportsAs, HasPrefix;
  }

  lemma NameIsCut(line: string, name: string)
    requires ' ' !in name && exists post :: line == "import { Route as " + name + " " + post
    ensures HasPrefix(line, IMPORT) && Index(line[|IMPORT|..], " ") == Some(|name|) && line[|IMPORT|..][..|name|] == name
  {
    var post :| line == "import { Route as " + name + " " + post;
    PrefixIsCut(IMPORT, name, ' ', post);
  }

  lemma CutAtChar(s: string, c: char)
    ensures Index(s, [c]).Some? ==> c !in s[..Index(s, [c]).value]
                                    && s == s[..Index(s, [c]).value] + [c] + s[Index(s, [c]).value + 1..]
  {
    IndexExact(s, [c]);
    if Index(s, [c]).Some? {
      var k := Index(s, [c]).value;
      assert FirstAt(s, [c], k);
      OccursWithin(s, [c], k);
      forall j: nat | j < k ensures s[j] != c {
        assert !OccursAt(s, [c], j);
        assert s[j..j + 1] == [s[j]];
      }
      assert s[k..k + 1] == [c] && s == s[..k] + s[k..k + 1] + s[k + 1..];
    }
  }

  lemma ParsedName(line: string)
    requires HasPrefix(line, IMPORT) && Index(line[|IMPORT|..], " ").Some?
    ensures var rest := line[|IMPORT|..]; var name := rest[..Index(rest, " ").value];
            ' ' !in name && exists post :: line == "import { Route as " + name + " " + post
  {
    var rest := line[|IMPORT|..];
    CutAtChar(rest, ' ');
    hide Index;
    var n := Index(rest, " ").value;
    assert line == IMPORT + rest;
    assert line == IMPORT + rest[..n] + " " + rest[n + 1..];
  }

  lemma OccurrenceSplits(line: string, sub: string, k: nat)
    requires OccursAt(line, sub, k)
    ensures line[k..] == sub + line[k + |sub|..]
  {
    assert line[k..] == line[k..k + |sub|] + line[k + |sub|..];
  }

  lemma ParsedPath(line: string)
    requires Index(line, FROM).Some? && Index(line[Index(line, FROM).value + |FROM|..], "'").Some?
    ensures var k := Index(line, FROM).value; var part := line[k + |FROM|..]; var path := part[..Index(part, "'").value];
            '\'' !in path && FirstAt(line, FROM, k) && exists post :: line[k..] == FROM + path + "'" + post
  {
    var k := Index(line, FROM).value;
    var part := line[k + |FROM|..];
    CutAtChar(part, '\'');
    IndexExact(line, FROM);
    OccursWithin(line, FROM, k);
    OccurrenceSplits(line, FROM, k);
    hide Index, OccursAt, FirstAt;
    var q := Index(part, "'").value;
    assert FROM + part == FROM + part[..q] + "'" + part[q + 1..];
  }

  lemma ParsedImportsAs(imports: map<string, string>, line: string)
    requires ImportStep(imports, line) != imports
    ensures exists name, path :: ImportsAs(line, name, path)
  {
    ParsedName(line);
    ParsedPath(line);
    hide Index, FirstAt, HasPrefix;
    var rest, k := line[|IMPORT|..], Index(line, FROM).value;
    var part := line[k + |FROM|..];
    assert ImportsAs(line, rest[..Index(rest, " ").value], part[..Index(part, "'").value]);
  }

  /** A line adds an import exactly when it has that form, and then that one. */
  lemma ImportStepExact(imports: map<string, string>, line: string)
    ensures forall name, path :: ImportsAs(line, name, path) ==>
              ImportStep(imports, line) == imports[name := "ui/src/routes/" + path + ".tsx"]
    ensures (forall name, path :: !ImportsAs(line, name, path)) ==> ImportStep(imports, line) == imports
  {
    hide ImportStep, ImportsAs;
    forall name, path | ImportsAs(line, name, path)
      ensures ImportStep(imports, line) == imports[name := "ui/src/routes/" + path + ".tsx"]
    {
      ImportsAsParses(imports, line, name, path);
    }
    if ImportStep(imports, line) != imports {
      ParsedImportsAs(imports, line);
    }
  }

  /** The name has no space, so the first " from './routes/" follows the brace. */
  lemma FromIsFirst(imp: Import)
    requires WellFormedImport(imp)
    ensures Index(ImportLine(imp), FROM) == Some(|IMPORT| + |imp.name| + 2)
  {
    var line, n := ImportLine(imp), |imp.name|;
    var k := |IMPORT| + n + 2;
    assert |IMPORT| == 18 && |FROM| == 16;
    assert line == IMPORT + imp.name + [' ', '}'] + FROM + imp.path + "'";
    assert OccursAt(line, FROM, k);
    forall j: nat | j < k ensures !OccursAt(line, FROM, j) {
      FromNotAt(imp, j);
    }
    IndexFromIsFirst(line, FROM, 0, k);
  }

  lemma MismatchRules(line: string, j: nat, k: nat)
    requires k < |FROM| && j + k < |line| && line[j + k] != FROM[k]
    ensures !OccursAt(line, FROM, j)
  {
    assert j + |FROM| <= |line| ==> line[j..j + |FROM|][k] == line[j + k];
  }

  lemma ImportLineShows(imp: Import, k: nat)
    requires k < 20 + |imp.name|
    ensures k < |ImportLine(imp)|
    ensures ImportLine(imp)[k] == if k < 18 then IMPORT[k] else if k < 18 + |imp.name| then imp.name[k - 18]
                                  else if k == 18 + |imp.name| then ' ' else '}'
  {
    assert |IMPORT| == 18;
    assert ImportLine(imp) == IMPORT + imp.name + [' ', '}'] + FROM + imp.path + "'";
  }

  /** Before the closing brace of the import names `FROM` does not occur. */
  lemma FromNotAt(imp: Import, j: nat)
    requires WellFormedImport(imp) && j < |IMPORT| + |imp.name| + 2
    ensures !OccursAt(ImportLine(imp), FROM, j)
  {
    var n := |imp.name|;
    assert |IMPORT| == 18;
    if j < 17 {
      NoFromInImport(j);
    }
    var k := if j < 17 then (if IMPORT[j] != ' ' then 0 else 1)
             else if j == 17 then (if n > 4 then 5 else if n == 4 then 6 else n + 1)
             else if j == 18 + n then 1 else 0;
    ImportLineShows(imp, j + k);
    FromLetters();
    MismatchRules(ImportLine(imp), j, k);
  }

  lemma FromLetters()
    ensures |FROM| == 16 && FROM[0] == ' ' && FROM[1] == 'f' && FROM[2] == 'r' && FROM[3] == 'o' && FROM[4] == 'm'
    ensures FROM[5] == ' ' && FROM[6] == '\''
  {
  }

  lemma NoFromInImport(j: nat)
    requires j < 17
    ensures IMPORT[j] != ' ' || IMPORT[j + 1] != 'f'
  {
    assert IMPORT[7] == '{' && IMPORT[9] == 'R' && IMPORT[15] == 'a';
    assert forall i :: 0 <= i < 17 && IMPORT[i] == ' ' ==> i == 6 || i == 8 || i == 14;
  }

  lemma {:induction false} ImportMapAppend(imports: map<string, string>, a: seq<string>, b: seq<string>)
    ensures ImportMap(imports, a + b) == ImportMap(ImportMap(imports, a), b)
    decreases |a|
  {
    if a == [] {
      assert a + b == b;
    } else {
      ImportMapAppend(ImportStep(imports, a[0]), a[1..], b);
      assert (a + b)[1..] == a[1..] + b;
    }
  }

  lemma {:induction false} OtherLinesImportNothing(imports: map<string, string>, lines: seq<string>)
    requires forall line :: line in lines ==> !HasPrefix(line, IMPORT)
    ensures ImportMap(imports, lines) == imports
  {
    if lines != [] {
      OtherLinesImportNothing(imports, lines[1..]);
    }
  }

  ghost predicate DistinctNames(imps: seq<Import>) {
    forall i, j :: 0 <= i < j < |imps| ==> imps[i].name != imps[j].name
  }

  /** The map gives each import its file. */
  ghost predicate Reads(m: map<string, string>, imps: seq<Import>) {
    forall i :: 0 <= i < |imps| ==> imps[i].name in m && m[imps[i].name] == FilePath(imps[i].path)
  }

  ghost predicate Names(imps: seq<Import>, n: string) {
    exists i :: 0 <= i < |imps| && imps[i].name == n
  }

  /** The map still holds what `imports` gave the other names. */
  ghost predicate KeepsOthers(m: map<string, string>, imports: map<string, string>, imps: seq<Import>) {
    forall n :: !Names(imps, n) ==> (n in m <==> n in imports) && (n in m ==> m[n] == imports[n])
  }

  lemma FirstIsDistinct(imps: seq<Import>)
    requires DistinctNames(imps) && imps != []
    ensures DistinctNames(imps[1..]) && !Names(imps[1..], imps[0].name)
    ensures forall n :: Names(imps, n) <==> n == imps[0].name || Names(imps[1..], n)
  {
    assert forall i :: 0 < i < |imps| ==> imps[i] == imps[1..][i - 1];
  }

  lemma FirstIsRead(m: map<string, string>, imports: map<string, string>, imps: seq<Import>)
    requires imps != [] && DistinctNames(imps) && Reads(m, imps[1..])
    requires KeepsOthers(m, imports[imps[0].name := FilePath(imps[0].path)], imps[1..])
    ensures Reads(m, imps) && KeepsOthers(m, imports, imps)
  {
    FirstIsDistinct(imps);
    hide Names, DistinctNames;
    assert forall i :: 0 < i < |imps| ==> imps[i] == imps[1..][i - 1];
  }

  lemma {:induction false} ImportLinesMap(imports: map<string, string>, imps: seq<Import>)
    requires (forall i :: 0 <= i < |imps| ==> WellFormedImport(imps[i])) && DistinctNames(imps)
    ensures var m := ImportMap(imports, ImportLines(imps)); Reads(m, imps) && KeepsOthers(m, imports, imps)
    decreases |imps|
  {
    hide ImportStep, WellFormedImport;
    if imps != [] {
      ImportLineParses(imports, imps[0]);
      assert ImportLines(imps)[0] == ImportLine(imps[0]) && ImportLines(imps)[1..] == ImportLines(imps[1..]);
      hide Reads, KeepsOthers, Names, DistinctNames;
      FirstIsDistinct(imps);
      ImportLinesMap(imports[imps[0].name := FilePath(imps[0].path)], imps[1..]);
      FirstIsRead(ImportMap(imports, ImportLines(imps)), imports, imps);
    }
  }

  lemma {:induction false} EntryLinesAreNoImports(imports: seq<Import>, entries: seq<Entry>)
    requires forall i :: 0 <= i < |entries| ==> WellFormedEntry(entries[i])
    ensures forall line :: line in AllEntryLines(entries) ==> !HasPrefix(line, IMPORT)
  {
    if entries != [] {
      EntryLinesAreNoImports(imports, entries[1..]);
      var e := entries[0];
      assert IMPORT[0] == 'i' && KeyLine(e.pattern)[0] == ' ';
      assert e.importName.Some? ==> PreloaderLine(e.importName.value)[0] == ' ';
    }
  }

  /** Pass 1 over a whole file reads exactly its import lines. */
  lemma RenderedImports(doc: RouteTree)
    requires WellFormed(doc)
    ensures ImportMap(map[], Render(doc)) == ImportMap(map[], ImportLines(doc.imports))
  {
    var head, rest := ImportLines(doc.imports),
        doc.preamble + ["  " + HEADER] + AllEntryLines(doc.entries) + ["  }"] + doc.tail;
    EntryLinesAreNoImports(doc.imports, doc.entries);
    assert IMPORT[0] == 'i';
    assert Render(doc) == head + rest;
    ImportMapAppend(map[], head, rest);
    OtherLinesImportNothing(ImportMap(map[], head), rest);
  }

  // -------------------------------------------------------- pass 2 on its format

  lemma {:induction false} ScanAppend(imports: map<string, string>, st: Scan, a: seq<string>, b: seq<string>)
    ensures ScanAll(imports, st, a + b) == ScanAll(imports, ScanAll(imports, st, a), b)
    decreases |a|
  {
    if a == [] {
      assert a + b == b;
    } else if !Stopped(st) {
      ScanAppend(imports, ScanLine(imports, st, a[0]), a[1..], b);
      assert (a + b)[1..] == a[1..] + b;
    }
  }

  lemma {:induction false} SkipsUntilHeader(imports: map<string, string>, lines: seq<string>)
    requires forall line :: line in lines ==> TrimSpace(line) != HEADER
    ensures ScanAll(imports, START, lines) == START
  {
    if lines != [] {
      SkipsUntilHeader(imports, lines[1..]);
    }
  }

  lemma {:induction false} ImportLinesAreNoHeader(imps: seq<Import>)
    ensures forall line :: line in ImportLines(imps) ==> TrimSpace(line) != HEADER
  {
    if imps != [] {
      var line := ImportLine(imps[0]);
      ImportLinesAreNoHeader(imps[1..]);
      assert line[0] == 'i' && line[1] == 'm' && line[|line| - 1] == '\'' && HEADER[1] == 'n';
      TrimIndent("", line);
      assert "" + line == line;
    }
  }

  /** What a line trims to and how it moves the brace depth. */
  ghost predicate LineIs(line: string, trimmed: string, braces: int) {
    TrimSpace(line) == trimmed && Count(line, '{') - Count(line, '}') == braces
  }

  lemma KeyLineIs(pattern: string)
    requires Balanced(pattern)
    ensures LineIs(KeyLine(pattern), "'" + pattern + KEY_END, 1)
  {
    var core := "'" + pattern + KEY_END;
    TrimIndent("    ", core);
    CountAppend("    ", core, '{');
    CountAppend("    ", core, '}');
    CountAppend("'" + pattern, KEY_END, '{');
    CountAppend("'" + pattern, KEY_END, '}');
    CountAppend("'", pattern, '{');
    CountAppend("'", pattern, '}');
    LiteralCounts();
  }

  lemma LiteralCounts()
    ensures Count("    ", '{') == 0 && Count("    ", '}') == 0 && Count("'", '{') == 0 && Count("'", '}') == 0
    ensures Count(KEY_END, '{') == 1 && Count(KEY_END, '}') == 0
  {
  }

  lemma PreloaderLineIs(name: string)
    requires name != "" && Balanced(name) && forall c :: c in name ==> !IsSpace(c)
    ensures LineIs(PreloaderLine(name), PRELOADER + name, 0)
  {
    assert PRELOADER[0] == 'p';
    LeadLineIs("      ", PRELOADER, name);
  }

  lemma LeadLineIs(indent: string, lead: string, name: string)
    requires (forall c :: c in indent ==> IsSpace(c)) && '{' !in indent && '}' !in indent
    requires lead != "" && !IsSpace(lead[0]) && '{' !in lead && '}' !in lead
    requires name != "" && Balanced(name) && forall c :: c in name ==> !IsSpace(c)
    ensures LineIs(indent + (lead + name), lead + name, 0)
  {
    var core := lead + name;
    assert core[|core| - 1] in name;
    TrimIndent(indent, core);
    CountAppend(indent, core, '{');
    CountAppend(indent, core, '}');
    CountAppend(lead, name, '{');
    CountAppend(lead, name, '}');
    CountNone(indent, '{');
    CountNone(indent, '}');
    CountNone(lead, '{');
    CountNone(lead, '}');
  }

  lemma {:induction false} CountNone(s: string, c: char)
    requires c !in s
    ensures Count(s, c) == 0
  {
    if s != [] {
      CountNone(s[1..], c);
    }
  }

  lemma ClosingLinesAre()
    ensures LineIs("    }", "}", -1) && LineIs("  }", "}", -1)
  {
  }

  /** A key line sets the pattern and opens the entry. */
  lemma ScanKey(imports: map<string, string>, st: Scan, line: string, pattern: string)
    requires st.inBlock && !st.panicked && st.depth == 1 && pattern != ""
    requires LineIs(line, "'" + pattern + KEY_END, 1)
    ensures ScanLine(imports, st, line) == st.(depth := 2, pattern := pattern)
  {
    var core := "'" + pattern + KEY_END;
    assert core[0] == '\'' && PRELOADER[0] == 'p';
    assert core[|core| - 4..] == KEY_END && core[1..|core| - 4] == pattern && core[..1] == "'";
  }

  lemma {:induction false} ScanBody(imports: map<string, string>, st: Scan, lines: seq<string>)
    requires st.inBlock && !st.panicked && st.depth == 2
    requires forall line :: line in lines ==> BodyLine(line)
    ensures ScanAll(imports, st, lines) == st
  {
    if lines != [] {
      assert BodyLine(lines[0]);
      assert ScanLine(imports, st, lines[0]) == st;
      ScanBody(imports, st, lines[1..]);
    }
  }

  lemma ScanPreloader(imports: map<string, string>, st: Scan, line: string, name: string)
    requires st.inBlock && !st.panicked && st.depth == 2
    requires LineIs(line, PRELOADER + name, 0)
    ensures ScanLine(imports, st, line) == st.(imp := name)
  {
    var core := PRELOADER + name;
    assert core[|PRELOADER|..] == name && core[..|PRELOADER|] == PRELOADER;
  }

  /** A name that is not imported gives the empty file. */
  function FileOf(imports: map<string, string>, name: string): string {
    if name in imports then imports[name] else ""
  }

  function RouteOf(imports: map<string, string>, e: Entry): Route
    requires e.importName.Some?
  {
    Route(e.pattern, FileOf(imports, e.importName.value), '$' in e.pattern)
  }

  /** The closing brace of an entry emits its route. */
  lemma ScanClose(imports: map<string, string>, st: Scan, line: string)
    requires st.inBlock && !st.panicked && st.depth == 2 && st.pattern != "" && st.imp != ""
    requires LineIs(line, "}", -1)
    ensures ScanLine(imports, st, line)
            == Scan(true, 1, "", "", st.routes + [Route(st.pattern, FileOf(imports, st.imp), '$' in st.pattern)], false)
  {
    assert PRELOADER[0] == 'p';
  }

  /** Between two entries no import is pending; a pattern may be left over from an
      entry that named none. */
  ghost predicate Between(st: Scan) {
    st.inBlock && !st.panicked && st.depth == 1 && st.imp == ""
  }

  /** The closing brace of an entry that names no import emits nothing. */
  lemma ScanCloseUnnamed(imports: map<string, string>, st: Scan, line: string)
    requires st.inBlock && !st.panicked && st.depth == 2 && st.imp == ""
    requires LineIs(line, "}", -1)
    ensures ScanLine(imports, st, line) == st.(depth := 1)
  {
    assert PRELOADER[0] == 'p';
  }

  lemma ScanOpen(imports: map<string, string>, st: Scan, e: Entry)
    requires Between(st) && WellFormedEntry(e)
    ensures ScanAll(imports, st, [KeyLine(e.pattern)] + e.before) == st.(depth := 2, pattern := e.pattern)
  {
    KeyLineIs(e.pattern);
    ScanKey(imports, st, KeyLine(e.pattern), e.pattern);
    ScanOne(imports, st, KeyLine(e.pattern));
    ScanBody(imports, st.(depth := 2, pattern := e.pattern), e.before);
    ScanAppend(imports, st, [KeyLine(e.pattern)], e.before);
  }

  lemma ScanNameLines(imports: map<string, string>, st: Scan, e: Entry)
    requires st.inBlock && !st.panicked && st.depth == 2 && WellFormedEntry(e)
    ensures ScanAll(imports, st, NameLines(e.importName) + e.after)
            == st.(imp := if e.importName.Some? then e.importName.value else st.imp)
  {
    if e.importName.Some? {
      var name := e.importName.value;
      PreloaderLineIs(name);
      ScanPreloader(imports, st, PreloaderLine(name), name);
      ScanOne(imports, st, PreloaderLine(name));
      ScanBody(imports, st.(imp := name), e.after);
      ScanAppend(imports, st, [PreloaderLine(name)], e.after);
    } else {
      ScanBody(imports, st, e.after);
      assert [] + e.after == e.after;
    }
  }

  /** What one entry adds: its route, when it names an import. */
  lemma ScanEntry(imports: map<string, string>, st: Scan, e: Entry)
    requires Between(st) && WellFormedEntry(e)
    ensures var r := ScanAll(imports, st, EntryLines(e));
            Between(r) && r.routes == st.routes + RoutesOfOne(imports, e)
  {
    var open := st.(depth := 2, pattern := e.pattern);
    var named := open.(imp := if e.importName.Some? then e.importName.value else "");
    ScanOpen(imports, st, e);
    ScanNameLines(imports, open, e);
    ClosingLinesAre();
    if e.importName.Some? {
      ScanClose(imports, named, "    }");
    } else {
      ScanCloseUnnamed(imports, named, "    }");
    }
    ScanOne(imports, named, "    }");
    var l1, l2, l3 := [KeyLine(e.pattern)] + e.before, NameLines(e.importName) + e.after, ["    }"];
    hide ScanAll, ScanLine, NameLines;
    ScanAppend(imports, st, l1, l2);
    ScanAppend(imports, st, l1 + l2, l3);
    assert EntryLines(e) == l1 + l2 + l3;
  }

  lemma ScanOne(imports: map<string, string>, st: Scan, line: string)
    requires !Stopped(st)
    ensures ScanAll(imports, st, [line]) == ScanLine(imports, st, line)
  {
    assert [line][1..] == [];
  }

  /** The entries that name an import, in order. */
  function Naming(entries: seq<Entry>): (r: seq<Entry>)
    ensures forall e :: e in r <==> e in entries && e.importName.Some?
  {
    if entries == [] then []
    else
      assert entries == [entries[0]] + entries[1..];
      (if entries[0].importName.Some? then [entries[0]] else []) + Naming(entries[1..])
  }

  /** The route of one entry, if it names an import. */
  function RoutesOfOne(imports: map<string, string>, e: Entry): seq<Route> {
    if e.importName.Some? then [RouteOf(imports, e)] else []
  }

  function RoutesOf(imports: map<string, string>, entries: seq<Entry>): seq<Route> {
    if entries == [] then [] else RoutesOfOne(imports, entries[0]) + RoutesOf(imports, entries[1..])
  }

  lemma {:induction false} RoutesAreOfNaming(imports: map<string, string>, entries: seq<Entry>)
    ensures var r, named := RoutesOf(imports, entries), Naming(entries);
            |r| == |named| && forall i :: 0 <= i < |named| ==> named[i] in named && r[i] == RouteOf(imports, named[i])
    decreases |entries|
  {
    if entries != [] {
      hide RouteOf;
      var e, rest := entries[0], entries[1..];
      RoutesAreOfNaming(imports, rest);
      assert RoutesOf(imports, entries) == RoutesOfOne(imports, e) + RoutesOf(imports, rest);
      if e.importName.Some? {
        assert Naming(entries) == [e] + Naming(rest);
        assert RoutesOf(imports, entries) == [RouteOf(imports, e)] + RoutesOf(imports, rest);
      } else {
        assert Naming(entries) == Naming(rest) && RoutesOf(imports, entries) == RoutesOf(imports, rest);
      }
      hide Naming, RoutesOf, RoutesOfOne;
    }
  }

  /** The first entry scanned, and then the rest. */
  lemma ScanFirst(imports: map<string, string>, st: Scan, entries: seq<Entry>)
    requires entries != []
    requires var next := ScanAll(imports, st, EntryLines(entries[0]));
             && next.routes == st.routes + RoutesOfOne(imports, entries[0])
             && ScanAll(imports, next, AllEntryLines(entries[1..])).routes
                == next.routes + RoutesOf(imports, entries[1..])
    ensures var next := ScanAll(imports, st, EntryLines(entries[0]));
            && ScanAll(imports, st, AllEntryLines(entries)) == ScanAll(imports, next, AllEntryLines(entries[1..]))
            && ScanAll(imports, st, AllEntryLines(entries)).routes == st.routes + RoutesOf(imports, entries)
  {
    hide ScanAll, EntryLines, RoutesOfOne;
    ScanAppend(imports, st, EntryLines(entries[0]), AllEntryLines(entries[1..]));
  }

  lemma {:induction false} ScanEntries(imports: map<string, string>, st: Scan, entries: seq<Entry>)
    requires Between(st) && forall i :: 0 <= i < |entries| ==> WellFormedEntry(entries[i])
    ensures var r := ScanAll(imports, st, AllEntryLines(entries));
            Between(r) && r.routes == st.routes + RoutesOf(imports, entries)
    decreases |entries|
  {
    if entries == [] {
      assert st.routes + [] == st.routes;
    } else {
      hide ScanAll, EntryLines, WellFormedEntry, RoutesOfOne;
      var e, rest := entries[0], entries[1..];
      assert WellFormedEntry(e) && forall i :: 0 <= i < |rest| ==> rest[i] == entries[i + 1];
      ScanEntry(imports, st, e);
      ScanEntries(imports, ScanAll(imports, st, EntryLines(e)), rest);
      ScanFirst(imports, st, entries);
    }
  }

  /** Everything up to the entries, and everything after them. */
  lemma ScanHead(imports: map<string, string>, doc: RouteTree)
    requires WellFormed(doc)
    ensures ScanAll(imports, START, ImportLines(doc.imports) + doc.preamble + ["  " + HEADER])
            == Scan(true, 1, "", "", [], false)
  {
    var lines := ImportLines(doc.imports) + doc.preamble;
    ImportLinesAreNoHeader(doc.imports);
    SkipsUntilHeader(imports, lines);
    ScanAppend(imports, START, lines, ["  " + HEADER]);
    ScanOne(imports, START, "  " + HEADER);
    TrimIndent("  ", HEADER);
  }

  lemma ScanBlockEnd(imports: map<string, string>, st: Scan, line: string)
    requires Between(st) && LineIs(line, "}", -1)
    ensures ScanLine(imports, st, line) == st.(depth := 0)
  {
    assert PRELOADER[0] == 'p';
  }

  lemma ScanEnd(imports: map<string, string>, st: Scan, tail: seq<string>)
    requires Between(st)
    ensures ScanAll(imports, st, ["  }"] + tail) == st.(depth := 0)
  {
    ClosingLinesAre();
    ScanBlockEnd(imports, st, "  }");
    ScanOne(imports, st, "  }");
    ScanAppend(imports, st, ["  }"], tail);
  }

  // ------------------------------------------------------------- the round trip

  /** Reading back a rendered route tree gives one route for each entry that names an
      import, in order: the entry's pattern, the file of that import, or no file when
      the tree does not have it, and whether the pattern has a parameter. */
  lemma RoundTrip(doc: RouteTree)
    requires WellFormed(doc)
    ensures var r, named := Extract(Render(doc)), Naming(doc.entries);
            && r.Routes? && |r.routes| == |named|
            && (forall i :: 0 <= i < |named| ==>
                  && named[i] in named
                  && r.routes[i].pattern == named[i].pattern && r.routes[i].dynamic == ('$' in named[i].pattern))
            && (forall i, j :: 0 <= i < |named| && 0 <= j < |doc.imports| && named[i].importName == Some(doc.imports[j].name)
                  ==> r.routes[i].file == "ui/src/routes/" + doc.imports[j].path + ".tsx")
            && (forall i :: 0 <= i < |named| && named[i] in named && !Names(doc.imports, named[i].importName.value)
                  ==> r.routes[i].file == "")
  {
    hide ScanAll, AllEntryLines, ImportLines, ScanLine, ImportStep, RoutesOf, Naming, IsSpace;
    var imports := ImportMap(map[], Render(doc));
    RenderedImports(doc);
    ImportLinesMap(map[], doc.imports);
    RoutesAreOf(imports, doc);
    RoutesAreOfNaming(imports, doc.entries);
  }

  /** The scan of the whole file, with the imports given. */
  lemma RoutesAreOf(imports: map<string, string>, doc: RouteTree)
    requires WellFormed(doc)
    ensures var end := ScanAll(imports, START, Render(doc));
            !end.panicked && end.routes == RoutesOf(imports, doc.entries)
  {
    hide ScanAll, AllEntryLines, ImportLines, ScanLine, RoutesOf, WellFormedEntry;
    var head, body := ImportLines(doc.imports) + doc.preamble + ["  " + HEADER], AllEntryLines(doc.entries);
    var st := Scan(true, 1, "", "", [], false);
    assert Render(doc) == head + (body + (["  }"] + doc.tail));
    ScanHead(imports, doc);
    ScanAppend(imports, START, head, body + (["  }"] + doc.tail));
    ScanEntries(imports, st, doc.entries);
    ScanAppend(imports, st, body, ["  }"] + doc.tail);
    ScanEnd(imports, ScanAll(imports, st, body), doc.tail);
    assert [] + RoutesOf(imports, doc.entries) == RoutesOf(imports, doc.entries);
  }

  ghost predicate IsSmall(doc: RouteTree) {
    doc == RouteTree([Import("A", "a")], [],
                     [Entry("/$", [], Some("A"), []), Entry("/c", [], None, []), Entry("/b", [], Some("B"), [])], [])
  }

  lemma SmallNaming(doc: RouteTree)
    requires IsSmall(doc)
    ensures Naming(doc.entries) == [doc.entries[0], doc.entries[2]]
  {
    var e := doc.entries;
    assert e[1..] == [e[1], e[2]] && [e[1], e[2]][1..] == [e[2]] && [e[2]][1..] == [];
    assert Naming([]) == [] && Naming([e[2]]) == [e[2]] && Naming([e[1], e[2]]) == [e[2]];
  }

  lemma SmallStrings()
    ensures '$' in "/$" && '$' !in "/b" && "ui/src/routes/" + "a" + ".tsx" == "ui/src/routes/a.tsx"
  {
    assert "/$"[1] == '$';
  }

  lemma TwoRoutes(r: seq<Route>, a: Entry, b: Entry)
    requires |r| == 2 && a.pattern == "/$" && b.pattern == "/b"
    requires r[0].pattern == a.pattern && r[0].dynamic == ('$' in a.pattern)
    requires r[1].pattern == b.pattern && r[1].dynamic == ('$' in b.pattern)
    requires r[0].file == "ui/src/routes/" + "a" + ".tsx" && r[1].file == ""
    ensures r == [Route("/$", "ui/src/routes/a.tsx", true), Route("/b", "", false)]
  {
    SmallStrings();
  }

  lemma SmallRoutes(doc: RouteTree)
    requires IsSmall(doc)
    ensures Extract(Render(doc)) == Routes([Route("/$", "ui/src/routes/a.tsx", true), Route("/b", "", false)])
  {
    SmallIsWellFormed(doc);
    RoundTrip(doc);
    SmallNaming(doc);
    NotImported(doc);
    hide Extract, WellFormed, Render, Names, Naming;
    var r, named := Extract(Render(doc)).routes, Naming(doc.entries);
    assert named[0].importName == Some(doc.imports[0].name);
    assert named[1].importName == Some("B") && named[1] in named;
    hide *;
    TwoRoutes(r, named[0], named[1]);
  }

  /** One small file, read literally: an imported name, an entry without one, and a
      name that is not imported. */
  lemma SmallFileIsRead()
    ensures Extract(["import { Route as A } from './routes/a'",
                     "  interface FileRoutesByPath {",
                     "    '/$': {", "      preLoaderRoute: typeof A", "    }",
                     "    '/c': {", "    }",
                     "    '/b': {", "      preLoaderRoute: typeof B", "    }",
                     "  }"])
            == Routes([Route("/$", "ui/src/routes/a.tsx", true), Route("/b", "", false)])
  {
    hide Extract, Render;
    var doc := RouteTree([Import("A", "a")], [],
                         [Entry("/$", [], Some("A"), []), Entry("/c", [], None, []), Entry("/b", [], Some("B"), [])], []);
    SmallRoutes(doc);
    SmallIsRendered(doc);
  }

  lemma NotImported(doc: RouteTree)
    requires doc.imports == [Import("A", "a")]
    ensures !Names(doc.imports, "B")
  {
  }

  lemma PlainIsBalanced(s: string)
    requires '{' !in s && '}' !in s
    ensures Balanced(s)
  {
    CountNone(s, '{');
    CountNone(s, '}');
  }

  lemma SmallIsWellFormed(doc: RouteTree)
    requires IsSmall(doc)
    ensures WellFormed(doc)
  {
    PlainIsBalanced("/$");
    PlainIsBalanced("/c");
    PlainIsBalanced("/b");
    PlainIsBalanced("A");
    PlainIsBalanced("B");
    hide Balanced, HasPrefix, TrimSpace;
    var e := doc.entries;
    assert PlainName("A") && PlainName("B");
    assert WellFormedEntry(e[0]) && WellFormedEntry(e[1]) && WellFormedEntry(e[2]);
    hide WellFormedEntry;
  }

  lemma SmallLines()
    ensures ImportLine(Import("A", "a")) == "import { Route as A } from './routes/a'"
    ensures "  " + HEADER == "  interface FileRoutesByPath {"
  {
  }

  lemma SmallKeys()
    ensures KeyLine("/$") == "    '/$': {" && KeyLine("/c") == "    '/c': {" && KeyLine("/b") == "    '/b': {"
  {
  }

  lemma SmallPreloaders()
    ensures PreloaderLine("A") == "      preLoaderRoute: typeof A" && PreloaderLine("B") == "      preLoaderRoute: typeof B"
  {
  }

  lemma SmallIsRendered(doc: RouteTree)
    requires IsSmall(doc)
    ensures Render(doc)
         == ["import { Route as A } from './routes/a'",
             "  interface FileRoutesByPath {",
             "    '/$': {", "      preLoaderRoute: typeof A", "    }",
             "    '/c': {", "    }",
             "    '/b': {", "      preLoaderRoute: typeof B", "    }",
             "  }"]
  {
    SmallLines();
    SmallKeys();
    SmallPreloaders();
    hide ImportLine, KeyLine, PreloaderLine;
    var imps, e := doc.imports, doc.entries;
    assert imps[1..] == [] && e[1..] == [e[1], e[2]] && [e[1], e[2]][1..] == [e[2]] && [e[2]][1..] == [];
    assert ImportLines(imps) == [ImportLine(imps[0])] + ImportLines([]) == [ImportLine(imps[0])];
    assert AllEntryLines([e[2]]) == EntryLines(e[2]) + AllEntryLines([]) == EntryLines(e[2]);
    assert AllEntryLines([e[1], e[2]]) == EntryLines(e[1]) + EntryLines(e[2]);
    assert AllEntryLines(e) == EntryLines(e[0]) + (EntryLines(e[1]) + EntryLines(e[2]));
  }

  lemma LinePanicsIff(imports: map<string, string>, st: Scan, line: string)
    requires !st.panicked
    ensures ScanLine(imports, st, line).panicked <==> st.inBlock && st.depth == 1 && TrimSpace(line) == KEY_END
  {
    hide TrimSpace, Count;
    var trimmed := TrimSpace(line);
    if |trimmed| == 4 {
      assert trimmed[0..] == trimmed;
    }
    assert KEY_END[..1] == "'";
  }

  /** Line `i` is reached, inside the block between two entries, and is the bare
      key end but for spaces around it. */
  ghost predicate BareKeyEnd(imports: map<string, string>, st: Scan, lines: seq<string>, i: nat) {
    && i < |lines| && TrimSpace(lines[i]) == KEY_END
    && var at := ScanAll(imports, st, lines[..i]);
       !Stopped(at) && at.inBlock && at.depth == 1
  }

  /** The slice of the key line panics exactly on such a line. */
  lemma {:induction false} PanicsIffBareKeyEnd(imports: map<string, string>, st: Scan, lines: seq<string>)
    requires !st.panicked
    ensures ScanAll(imports, st, lines).panicked <==> exists i: nat :: BareKeyEnd(imports, st, lines, i)
    decreases |lines|
  {
    hide TrimSpace, ScanLine;
    if lines == [] {
    } else {
      var init, line := lines[..|lines| - 1], lines[|lines| - 1];
      var at := ScanAll(imports, st, init);
      assert lines == init + [line];
      ScanAppend(imports, st, init, [line]);
      PanicsIffBareKeyEnd(imports, st, init);
      BareKeyEndStep(imports, st, init, line);
      if !Stopped(at) {
        ScanOne(imports, at, line);
        LinePanicsIff(imports, at, line);
      }
    }
  }

  lemma BareKeyEndStep(imports: map<string, string>, st: Scan, init: seq<string>, line: string)
    ensures (exists i: nat :: BareKeyEnd(imports, st, init + [line], i))
            <==> (exists i: nat :: BareKeyEnd(imports, st, init, i)) || BareKeyEnd(imports, st, init + [line], |init|)
  {
    hide ScanAll, TrimSpace, Stopped;
    var lines := init + [line];
    assert forall i :: 0 <= i <= |init| ==> lines[..i] == init[..i];
    assert forall i: nat :: i < |init| ==> (BareKeyEnd(imports, st, lines, i) <==> BareKeyEnd(imports, st, init, i));
  }

  // -------------------------------------------- the panic, read off the lines alone

  function Braces(line: string): int {
    Count(line, '{') - Count(line, '}')
  }

  function BraceSum(lines: seq<string>): int {
    if lines == [] then 0 else BraceSum(lines[..|lines| - 1]) + Braces(lines[|lines| - 1])
  }

  /** Line `h` is the first header line. */
  ghost predicate HeaderAt(lines: seq<string>, h: nat) {
    h < |lines| && TrimSpace(lines[h]) == HEADER && forall k :: 0 <= k < h ==> TrimSpace(lines[k]) != HEADER
  }

  /** The brace depth before line `k`: one at the header, then by the lines' braces. */
  function DepthBefore(lines: seq<string>, h: nat, k: nat): int
    requires h < k <= |lines|
  {
    1 + BraceSum(lines[h + 1..k])
  }

  /** The block of the header at `h` is still open before line `k`. */
  ghost predicate OpenUntil(lines: seq<string>, h: nat, k: nat)
    requires k <= |lines|
  {
    forall j :: h < j <= k ==> DepthBefore(lines, h, j) != 0
  }

  /** Line `i` is the bare key end, but for spaces, between two entries of the block
      that the first header opens. */
  ghost predicate BareKeyEndAt(lines: seq<string>, h: nat, i: nat) {
    && h < i < |lines| && HeaderAt(lines, h) && OpenUntil(lines, h, i)
    && DepthBefore(lines, h, i) == 1 && TrimSpace(lines[i]) == KEY_END
  }

  lemma DepthStep(lines: seq<string>, h: nat, k: nat)
    requires h < k < |lines|
    ensures DepthBefore(lines, h, k + 1) == DepthBefore(lines, h, k) + Braces(lines[k])
  {
    hide Braces;
    var s := lines[h + 1..k + 1];
    assert s[..|s| - 1] == lines[h + 1..k] && s[|s| - 1] == lines[k];
  }

  /** The scan's state before line `n` is what the lines say. */
  ghost predicate Told(at: Scan, lines: seq<string>, n: nat)
    requires n <= |lines|
  {
    && (!at.inBlock && !at.panicked ==> forall k :: 0 <= k < n ==> TrimSpace(lines[k]) != HEADER)
    && (at.inBlock && !at.panicked ==>
          exists h: nat :: h < n && HeaderAt(lines, h)
                           && (at.depth != 0 ==> OpenUntil(lines, h, n) && at.depth == DepthBefore(lines, h, n))
                           && (at.depth == 0 ==> !OpenUntil(lines, h, n)))
  }

  lemma LineMovesDepth(imports: map<string, string>, at: Scan, line: string)
    requires !at.panicked
    ensures var r := ScanLine(imports, at, line);
            && (!at.inBlock ==> !r.panicked && (r.inBlock <==> TrimSpace(line) == HEADER) && (r.inBlock ==> r.depth == 1))
            && (at.inBlock ==> r.inBlock && (!r.panicked ==> r.depth == at.depth + Braces(line)))
  {
    hide TrimSpace, Count, HasPrefix, HasSuffix, TrimPrefix;
    KeyIsLongEnough(TrimSpace(line));
  }

  lemma OpenStep(lines: seq<string>, h: nat, n: nat)
    requires h < n < |lines|
    ensures OpenUntil(lines, h, n + 1) <==> OpenUntil(lines, h, n) && DepthBefore(lines, h, n) + Braces(lines[n]) != 0
  {
    hide BraceSum, Braces;
    DepthStep(lines, h, n);
    hide DepthBefore;
  }

  lemma OpenAtHeader(lines: seq<string>, h: nat)
    requires h < |lines|
    ensures DepthBefore(lines, h, h + 1) == 1 && OpenUntil(lines, h, h + 1)
  {
  }

  lemma ToldStep(imports: map<string, string>, at: Scan, lines: seq<string>, n: nat)
    requires n < |lines| && Told(at, lines, n) && !Stopped(at)
    ensures Told(ScanLine(imports, at, lines[n]), lines, n + 1)
  {
    hide DepthBefore, OpenUntil, ScanLine, Braces, TrimSpace;
    var r := ScanLine(imports, at, lines[n]);
    LineMovesDepth(imports, at, lines[n]);
    if at.inBlock {
      var h: nat :| h < n && HeaderAt(lines, h) && OpenUntil(lines, h, n) && at.depth == DepthBefore(lines, h, n);
      DepthStep(lines, h, n);
      OpenStep(lines, h, n);
    } else if r.inBlock {
      OpenAtHeader(lines, n);
      assert HeaderAt(lines, n);
    }
  }

  lemma ToldStays(at: Scan, lines: seq<string>, n: nat)
    requires n < |lines| && Told(at, lines, n) && Stopped(at)
    ensures Told(at, lines, n + 1)
  {
    hide DepthBefore, TrimSpace, HeaderAt;
    if at.inBlock && !at.panicked {
      var h: nat :| h < n && HeaderAt(lines, h) && !OpenUntil(lines, h, n);
      assert !OpenUntil(lines, h, n + 1);
    }
  }

  lemma PrefixStep(imports: map<string, string>, lines: seq<string>, n: nat)
    requires n < |lines|
    ensures var at := ScanAll(imports, START, lines[..n]);
            ScanAll(imports, START, lines[..n + 1]) == if Stopped(at) then at else ScanLine(imports, at, lines[n])
  {
    hide ScanLine;
    var at := ScanAll(imports, START, lines[..n]);
    assert lines[..n + 1] == lines[..n] + [lines[n]];
    ScanAppend(imports, START, lines[..n], [lines[n]]);
    if !Stopped(at) {
      ScanOne(imports, at, lines[n]);
    }
  }

  lemma {:induction false} ScanIsTold(imports: map<string, string>, lines: seq<string>, n: nat)
    requires n <= |lines|
    ensures Told(ScanAll(imports, START, lines[..n]), lines, n)
  {
    hide ScanLine, Told, TrimSpace;
    if n == 0 {
      ToldAtStart(lines);
      assert lines[..0] == [];
    } else {
      ScanIsTold(imports, lines, n - 1);
      PrefixStep(imports, lines, n - 1);
      hide ScanAll;
      var at := ScanAll(imports, START, lines[..n - 1]);
      if Stopped(at) { ToldStays(at, lines, n - 1); } else { ToldStep(imports, at, lines, n - 1); }
    }
  }

  lemma ToldAtStart(lines: seq<string>)
    ensures Told(START, lines, 0)
  {
  }

  lemma HeaderIsUnique(lines: seq<string>, h: nat, g: nat)
    requires HeaderAt(lines, h) && HeaderAt(lines, g)
    ensures h == g
  {
    hide TrimSpace;
  }

  /** The lines call for a panic at `i` exactly when the scan that gets there without
      one panics there. */
  lemma ReachedIff(imports: map<string, string>, lines: seq<string>, i: nat)
    requires i < |lines| && !ScanAll(imports, START, lines[..i]).panicked
    ensures BareKeyEnd(imports, START, lines, i) <==> exists h: nat :: BareKeyEndAt(lines, h, i)
  {
    ScanIsTold(imports, lines, i);
    hide ScanAll, TrimSpace, DepthBefore, OpenUntil;
    var at := ScanAll(imports, START, lines[..i]);
    if at.inBlock {
      var h: nat :| h < i && HeaderAt(lines, h)
                    && (at.depth != 0 ==> OpenUntil(lines, h, i) && at.depth == DepthBefore(lines, h, i))
                    && (at.depth == 0 ==> !OpenUntil(lines, h, i));
      forall g: nat | BareKeyEndAt(lines, g, i) ensures g == h {
        HeaderIsUnique(lines, g, h);
      }
      assert BareKeyEndAt(lines, h, i) <==> BareKeyEnd(imports, START, lines, i);
    }
  }

  lemma PanicLasts(imports: map<string, string>, lines: seq<string>, i: nat)
    requires i <= |lines| && ScanAll(imports, START, lines[..i]).panicked
    ensures ScanAll(imports, START, lines).panicked
  {
    ScanAppend(imports, START, lines[..i], lines[i..]);
    assert lines == lines[..i] + lines[i..];
  }

  /** The program panics exactly when, after the first header line and before the
      braces return to depth zero, some line at depth one trims to the bare key end.
      The condition is on the lines alone. */
  lemma PanicsIffLineAtDepthOne(lines: seq<string>)
    ensures Extract(lines).Panic? <==> exists h: nat, i: nat :: BareKeyEndAt(lines, h, i)
  {
    var imports := ImportMap(map[], lines);
    PanicsIffBareKeyEnd(imports, START, lines);
    hide ScanAll, TrimSpace, BareKeyEndAt, ImportMap;
    if i: nat :| BareKeyEnd(imports, START, lines, i) {
      ReachedIff(imports, lines, i);
    }
    forall h: nat, i: nat | BareKeyEndAt(lines, h, i) ensures Extract(lines).Panic? {
      BareKeyEndIsInside(lines, h, i);
      if ScanAll(imports, START, lines[..i]).panicked {
        PanicLasts(imports, lines, i);
      } else {
        ReachedIff(imports, lines, i);
      }
    }
  }

  lemma BareKeyEndIsInside(lines: seq<string>, h: nat, i: nat)
    requires BareKeyEndAt(lines, h, i)
    ensures i < |lines|
  {
    hide TrimSpace, DepthBefore;
  }

  /** The smallest such input: the header, then a bare key end. */
  lemma BareKeyEndPanics()
    ensures Extract([HEADER, KEY_END]).Panic?
  {
    var lines := [HEADER, KEY_END];
    TrimIndent("", HEADER);
    TrimIndent("", KEY_END);
    assert "" + HEADER == HEADER && "" + KEY_END == KEY_END;
    OpenAtHeader(lines, 0);
    hide TrimSpace, DepthBefore, OpenUntil, Extract;
    assert BareKeyEndAt(lines, 0, 1);
    PanicsIffLineAtDepthOne(lines);
  }
}
