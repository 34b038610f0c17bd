/** The files `Build.writeFiles` produces: the four rendered ones
    (`package.json`, `.env`, `.gitignore`, `wrangler.jsonc`) and the list of
    operations that writes them and copies the bundled templates. Small
    readers for these formats are the partners that show where each input
    ends up. */
module Templates {
  import opened JsText
  import Base64
  import CompatDate
  import ProjectName

  // ---------------------------------------------------------------------------
  // package.json

  /** The JavaScript value `JSON.stringify` is given; object members keep
      their order. */
  datatype Json = JString(str: string) | JObject(members: seq<(string, Json)>)

  /** The value of the first member named `key`. */
  function Member(members: seq<(string, Json)>, key: string): (r: Option<Json>)
    ensures r.Some? <==> exists i :: 0 <= i < |members| && members[i].0 == key
  {
    if members == [] then None
    else if members[0].0 == key then Some(members[0].1)
    else
      var r := Member(members[1..], key);
      assert forall i :: 1 <= i < |members| ==> members[i] == members[1..][i - 1];
      r
  }

  /** Every member of the manifest after `name`; none depends on an input. */
  const ManifestRest: seq<(string, Json)> := [
    ("type", JString("module")),
    ("version", JString("0.0.1")),
    ("engines", JObject([("node", JString(">=22"))])),
    ("scripts", JObject([
      ("bump", JString("ace build local")),
      ("cf-typegen", JString("wrangler types")),
      ("dev", JString("ace build local && wrangler dev")),
      ("dev-fresh", JString("rm -rf .ace && npm run dev")),
      ("build", JString("ace build prod && wrangler build")),
      ("typesafe", JString("tsc --project tsconfig.typesafe.json"))])),
    ("devDependencies", JObject([
      ("@acets-team/ace", JString("^0.8.1")),
      ("@types/node", JString("^24.10.0")),
      ("typescript", JString("^5.9.3")),
      ("wrangler", JString("^4.46.0"))]))
  ]

  /** `#renderPackageDotJson`. */
  function PackageDotJson(projectName: string): Json {
    JObject([("name", JString(projectName))] + ManifestRest)
  }

  /** The manifest's `name` is the project name, and every other member is
      the same whatever the project name is. */
  lemma {:induction false} ManifestEmbedsOnlyName(a: string, b: string)
    ensures Member(PackageDotJson(a).members, "name") == Some(JString(a))
    ensures forall k :: k != "name" ==> Member(PackageDotJson(a).members, k) == Member(PackageDotJson(b).members, k)
  {
    var ma, mb := PackageDotJson(a).members, PackageDotJson(b).members;
    assert ma[1..] == ManifestRest && mb[1..] == ManifestRest;
  }

  // ---------------------------------------------------------------------------
  // Reading `"key": "value"` lines

  predicate IsIndent(c: char) {
    c == ' ' || c == '\t'
  }

  function SkipIndent(s: string): (r: string)
    ensures |r| <= |s| && r == s[|s| - |r|..]
  {
    if s != [] && IsIndent(s[0]) then SkipIndent(s[1..]) else s
  }

  function Quote(x: string): string {
    "\"" + x + "\""
  }

  /** A string literal without escapes at the start of `t`: its contents and
      what follows the closing quote. */
  function Quoted(t: string): Option<(string, string)> {
    if t == [] || t[0] != '"' then None
    else
      var x := PrefixBefore(t[1..], '"');
      if 1 + |x| < |t| then Some((x, t[2 + |x|..])) else None
  }

  /** Reads a line holding one object member with a string value,
      `<indent>"key": "value"<rest>`, as the configuration files are laid
      out one member to a line. */
  function StringMember(line: string): Option<(string, string)> {
    match Quoted(SkipIndent(line))
    case None => None
    case Some((key, rest)) =>
      if |rest| < 2 || rest[..2] != ": " then None
      else match Quoted(rest[2..])
        case None => None
        case Some((value, _)) => Some((key, value))
  }

  /** The value of the first line that is a string member named `key`. */
  function FieldValue(lines: seq<string>, key: string): Option<string> {
    if lines == [] then None
    else match StringMember(lines[0])
      case Some((k, v)) => if k == key then Some(v) else FieldValue(lines[1..], key)
      case None => FieldValue(lines[1..], key)
  }

  /** A line `<indent>"key": "value"<trailer>`, as the renderer writes a
      member with a string value. */
  function MemberLine(indent: string, key: string, value: string, trailer: string): string {
    indent + (Quote(key) + (": " + (Quote(value) + trailer)))
  }

  lemma SkipIndentOf(indent: string, t: string)
    requires forall i :: 0 <= i < |indent| ==> IsIndent(indent[i])
    requires t != [] && !IsIndent(t[0])
    ensures SkipIndent(indent + t) == t
    decreases |indent|
  {
    if indent != [] {
      assert (indent + t)[1..] == indent[1..] + t;
      SkipIndentOf(indent[1..], t);
    }
  }

  lemma PrefixBeforeQuote(x: string, y: string)
    requires '"' !in x
    ensures PrefixBefore(x + "\"" + y, '"') == x
  {
    var s := x + "\"" + y;
    assert s[..|x|] == x && s[|x|] == '"';
  }

  /** A quoted string without inner quotes reads back, with what follows. */
  lemma QuotedOf(x: string, y: string)
    requires '"' !in x
    ensures Quoted(Quote(x) + y) == Some((x, y))
  {
    var t := Quote(x) + y;
    assert t[1..] == x + "\"" + y;
    PrefixBeforeQuote(x, y);
    assert t[2 + |x|..] == y;
  }

  lemma StringMemberOfParts(line: string, key: string, rest: string, value: string, trailer: string)
    requires Quoted(SkipIndent(line)) == Some((key, rest))
    requires |rest| >= 2 && rest[..2] == ": "
    requires Quoted(rest[2..]) == Some((value, trailer))
    ensures StringMember(line) == Some((key, value))
  {
  }

  lemma ColonPrefix(value: string, trailer: string)
    ensures var rest := ": " + (Quote(value) + trailer);
      |rest| >= 2 && rest[..2] == ": " && rest[2..] == Quote(value) + trailer
  {
    var rest := ": " + (Quote(value) + trailer);
    assert rest[..2] == ": ";
  }

  /** A member line with a quote-free key and value reads back as that key
      and that value, whatever follows the closing quote. */
  lemma MemberLineReadsBack(indent: string, key: string, value: string, trailer: string)
    requires forall i :: 0 <= i < |indent| ==> IsIndent(indent[i])
    requires '"' !in key && '"' !in value
    ensures StringMember(MemberLine(indent, key, value, trailer)) == Some((key, value))
  {
    var rest := ": " + (Quote(value) + trailer);
    var line := MemberLine(indent, key, value, trailer);
    assert Quoted(SkipIndent(line)) == Some((key, rest)) by {
      SkipIndentOf(indent, Quote(key) + rest);
      QuotedOf(key, rest);
    }
    ColonPrefix(value, trailer);
    QuotedOf(value, trailer);
    StringMemberOfParts(line, key, rest, value, trailer);
  }

  lemma MemberLineOneLine(indent: string, key: string, value: string, trailer: string)
    requires '\n' !in indent && '\n' !in key && '\n' !in value && '\n' !in trailer
    ensures '\n' !in MemberLine(indent, key, value, trailer)
  {
  }

  /** Reading the fields of a text given line by line: the first line is
      read, then the rest. */
  lemma FieldValueOfUnlines(ls: seq<string>, key: string)
    requires ls != [] && '\n' !in ls[0]
    ensures FieldValue(Lines(Unlines(ls)), key) ==
      match StringMember(ls[0])
      case Some((k, v)) => if k == key then Some(v) else FieldValue(Lines(Unlines(ls[1..])), key)
      case None => FieldValue(Lines(Unlines(ls[1..])), key)
  {
    LinesOfFirstLine(ls[0], Unlines(ls[1..]));
    var t := [ls[0]] + Lines(Unlines(ls[1..]));
    assert t[0] == ls[0] && t[1..] == Lines(Unlines(ls[1..]));
  }

  /** A first line that is a bare `{` is passed over. */
  lemma PassOpeningBrace(ls: seq<string>, key: string)
    requires ls != [] && ls[0] == "{"
    ensures FieldValue(Lines(Unlines(ls)), key) == FieldValue(Lines(Unlines(ls[1..])), key)
  {
    assert StringMember("{") == None;
    FieldValueOfUnlines(ls, key);
  }

  /** A first line holding another member is passed over. */
  lemma PassMemberLine(ls: seq<string>, key: string, other: string, value: string)
    requires ls != [] && ls[0] == MemberLine("  ", other, value, ",") && other != key
    requires '"' !in other && '\n' !in other && '"' !in value && '\n' !in value
    ensures FieldValue(Lines(Unlines(ls)), key) == FieldValue(Lines(Unlines(ls[1..])), key)
  {
    IndentIsPlain();
    MemberLineOneLine("  ", other, value, ",");
    MemberLineReadsBack("  ", other, value, ",");
    FieldValueOfUnlines(ls, key);
  }

  /** A first line holding the member is where the value is read. */
  lemma ReadMemberLine(ls: seq<string>, key: string, value: string)
    requires ls != [] && ls[0] == MemberLine("  ", key, value, ",")
    requires '"' !in key && '\n' !in key && '"' !in value && '\n' !in value
    ensures FieldValue(Lines(Unlines(ls)), key) == Some(value)
  {
    IndentIsPlain();
    MemberLineOneLine("  ", key, value, ",");
    MemberLineReadsBack("  ", key, value, ",");
    FieldValueOfUnlines(ls, key);
  }

  lemma IndentIsPlain()
    ensures forall i :: 0 <= i < |"  "| ==> IsIndent("  "[i])
    ensures '\n' !in "  " && '\n' !in ","
  {
  }

  // ---------------------------------------------------------------------------
  // wrangler.jsonc

  /** The lines of `#renderWranglerJsonc`: a head holding the project name
      in its third line and the compatibility date in its fifth, then lines
      that do not depend on any input. */
  function WranglerLines(projectName: string, date: string): seq<string> {
    WranglerHead(SchemaPath, projectName, MainModule, date) + WranglerTail
  }

  const SchemaPath := "node_modules/wrangler/config-schema.json"
  const MainModule := "src/index.ts"

  /** The first five lines, for the given schema path, project name, main
      module and date. */
  function WranglerHead(schema: string, projectName: string, main: string, date: string): seq<string> {
    [ "{",
      MemberLine("  ", "$schema", schema, ","),
      MemberLine("  ", "name", projectName, ","),
      MemberLine("  ", "main", main, ","),
      MemberLine("  ", "compatibility_date", date, ",") ]
  }

  const WranglerTail: seq<string> := [
    "  \"compatibility_flags\": [",
    "    \"nodejs_compat\"",
    "  ],",
    "  \"observability\": {",
    "    \"enabled\": true",
    "  },",
    "\t\"migrations\": [",
    "\t\t{",
    "\t\t\t\"new_sqlite_classes\": [",
    "\t\t\t\t\"LiveDurableObject\"",
    "\t\t\t],",
    MemberLine("\t\t\t", "tag", "v1", ""),
    "\t\t}",
    "\t],",
    "\t\"durable_objects\": {",
    "\t\t\"bindings\": [",
    "\t\t\t{",
    MemberLine("\t\t\t\t", "class_name", "LiveDurableObject", ","),
    MemberLine("\t\t\t\t", "name", "LIVE_DURABLE_OBJECT", ""),
    "\t\t\t}",
    "\t\t]",
    "\t}",
    "}" ]

  /** `#renderWranglerJsonc`. */
  function WranglerJsonc(projectName: string, date: string): string {
    Unlines(WranglerLines(projectName, date))
  }

  /** The configuration's top-level `name` reads as the project name, its
      `compatibility_date` as the date and its `main` as `src/index.ts`,
      provided neither input holds a double quote or a newline. */
  lemma WranglerEmbedsNameAndDate(projectName: string, date: string)
    requires '"' !in projectName && '\n' !in projectName
    requires '"' !in date && '\n' !in date
    ensures FieldValue(Lines(WranglerJsonc(projectName, date)), "name") == Some(projectName)
    ensures FieldValue(Lines(WranglerJsonc(projectName, date)), "compatibility_date") == Some(date)
    ensures FieldValue(Lines(WranglerJsonc(projectName, date)), "main") == Some("src/index.ts")
  {
    FixedPathsArePlain();
    var ls := WranglerLines(projectName, date);
    var h := WranglerHead(SchemaPath, projectName, MainModule, date);
    assert ls[..5] == h;
    NameField(ls, SchemaPath, projectName, MainModule, date);
    MainField(ls, SchemaPath, projectName, MainModule, date);
    DateField(ls, SchemaPath, projectName, MainModule, date);
  }

  /** Apart from its third line, which names the project, and its fifth,
      which carries the date, the configuration is the same for all inputs:
      28 lines each time. */
  lemma WranglerEmbedsOnlyNameAndDate(n1: string, d1: string, n2: string, d2: string)
    ensures |WranglerLines(n1, d1)| == 28 && |WranglerLines(n2, d2)| == 28
    ensures WranglerLines(n1, d1)[2] == MemberLine("  ", "name", n1, ",")
    ensures WranglerLines(n1, d1)[4] == MemberLine("  ", "compatibility_date", d1, ",")
    ensures forall i :: 0 <= i < 28 && i != 2 && i != 4 ==> WranglerLines(n1, d1)[i] == WranglerLines(n2, d2)[i]
  {
    var l1, l2 := WranglerLines(n1, d1), WranglerLines(n2, d2);
    assert l1[5..] == WranglerTail && l2[5..] == WranglerTail;
    forall i | 5 <= i < 28 ensures l1[i] == l2[i] {
      assert l1[i] == l1[5..][i - 5] && l2[i] == l2[5..][i - 5];
    }
  }

  lemma FixedPathsArePlain()
    ensures '"' !in SchemaPath && '\n' !in SchemaPath
    ensures '"' !in MainModule && '\n' !in MainModule
  {
    SchemaPathIsPlain();
  }

  lemma SchemaPathIsPlain()
    ensures '"' !in SchemaPath && '\n' !in SchemaPath
  {
    assert '"' !in SchemaPath;
  }

  lemma HeadKeysArePlain()
    ensures '"' !in "$schema" && '\n' !in "$schema"
    ensures '"' !in "name" && '\n' !in "name"
    ensures '"' !in "main" && '\n' !in "main"
    ensures '"' !in "compatibility_date" && '\n' !in "compatibility_date"
  {
  }

  lemma {:induction false} NameField(ls: seq<string>, schema: string, projectName: string, main: string, date: string)
    requires '"' !in schema && '\n' !in schema && '"' !in projectName && '\n' !in projectName
    requires |ls| >= 5 && ls[..5] == WranglerHead(schema, projectName, main, date)
    ensures FieldValue(Lines(Unlines(ls)), "name") == Some(projectName)
  {
    HeadKeysArePlain();
    assert ls[0] == "{" && ls[1..][0] == MemberLine("  ", "$schema", schema, ",");
    assert ls[2..][0] == MemberLine("  ", "name", projectName, ",");
    assert ls[1..][1..] == ls[2..];
    PassOpeningBrace(ls, "name");
    PassMemberLine(ls[1..], "name", "$schema", schema);
    ReadMemberLine(ls[2..], "name", projectName);
  }

  lemma {:induction false} MainField(ls: seq<string>, schema: string, projectName: string, main: string, date: string)
    requires '"' !in schema && '\n' !in schema && '"' !in projectName && '\n' !in projectName
    requires '"' !in main && '\n' !in main
    requires |ls| >= 5 && ls[..5] == WranglerHead(schema, projectName, main, date)
    ensures FieldValue(Lines(Unlines(ls)), "main") == Some(main)
  {
    HeadKeysArePlain();
    assert ls[0] == "{" && ls[1..][0] == MemberLine("  ", "$schema", schema, ",");
    assert ls[2..][0] == MemberLine("  ", "name", projectName, ",");
    assert ls[3..][0] == MemberLine("  ", "main", main, ",");
    assert ls[1..][1..] == ls[2..] && ls[2..][1..] == ls[3..];
    PassOpeningBrace(ls, "main");
    PassMemberLine(ls[1..], "main", "$schema", schema);
    PassMemberLine(ls[2..], "main", "name", projectName);
    ReadMemberLine(ls[3..], "main", main);
  }

  lemma {:induction false} DateField(ls: seq<string>, schema: string, projectName: string, main: string, date: string)
    requires '"' !in schema && '\n' !in schema && '"' !in projectName && '\n' !in projectName
    requires '"' !in main && '\n' !in main && '"' !in date && '\n' !in date
    requires |ls| >= 5 && ls[..5] == WranglerHead(schema, projectName, main, date)
    ensures FieldValue(Lines(Unlines(ls)), "compatibility_date") == Some(date)
  {
    HeadKeysArePlain();
    assert ls[0] == "{" && ls[1..][0] == MemberLine("  ", "$schema", schema, ",");
    assert ls[2..][0] == MemberLine("  ", "name", projectName, ",");
    assert ls[3..][0] == MemberLine("  ", "main", main, ",");
    assert ls[4..][0] == MemberLine("  ", "compatibility_date", date, ",");
    assert ls[1..][1..] == ls[2..] && ls[2..][1..] == ls[3..] && ls[3..][1..] == ls[4..];
    PassOpeningBrace(ls, "compatibility_date");
    PassMemberLine(ls[1..], "compatibility_date", "$schema", schema);
    PassMemberLine(ls[2..], "compatibility_date", "name", projectName);
    PassMemberLine(ls[3..], "compatibility_date", "main", main);
    ReadMemberLine(ls[4..], "compatibility_date", date);
  }

  // ---------------------------------------------------------------------------
  // .env

  /** `#renderDotEnv`: the secret in base 64 under `LIVE_SECRET`, an empty
      line and a hint. */
  function DotEnvLines(secret: seq<Base64.byte>): seq<string> {
    ["LIVE_SECRET=" + Base64.Encode(secret), "", "# npx wrangler secret put"]
  }

  function DotEnv(secret: seq<Base64.byte>): string {
    Unlines(DotEnvLines(secret))
  }

  /** The value of the first `key=value` line for `key`. */
  function EnvValue(lines: seq<string>, key: string): Option<string> {
    if lines == [] then None
    else if |lines[0]| > |key| && lines[0][..|key| + 1] == key + "=" then Some(lines[0][|key| + 1..])
    else EnvValue(lines[1..], key)
  }

  /** The `.env` text is exactly three lines: `LIVE_SECRET=` and the 88
      characters of the 64 bytes in base 64, an empty line, and the hint;
      reading `LIVE_SECRET` and decoding it gives back the bytes. */
  lemma {:induction false} DotEnvHoldsSecret(secret: seq<Base64.byte>)
    requires |secret| == 64
    ensures Lines(DotEnv(secret)) == ["LIVE_SECRET=" + Base64.Encode(secret), "", "# npx wrangler secret put"]
    ensures var v := EnvValue(Lines(DotEnv(secret)), "LIVE_SECRET");
      v == Some(Base64.Encode(secret)) && |v.value| == 88 && Base64.Decode(v.value) == Some(secret)
  {
    var ls := DotEnvLines(secret);
    var e := Base64.Encode(secret);
    assert '\n' !in "LIVE_SECRET=" + e;
    assert NoNewlines(ls);
    LinesOfUnlines(ls);
    Base64.SecretLength(secret);
    Base64.DecodeEncode(secret);
    var l0 := "LIVE_SECRET=" + e;
    assert l0[..12] == "LIVE_SECRET=" && l0[12..] == e;
  }

  // ---------------------------------------------------------------------------
  // .gitignore

  const GitIgnoreEntries: seq<string> := [".env", "dist", "node_modules", ".wrangler", "worker-configuration.d.ts"]

  /** `#renderGitIgnore`. */
  function GitIgnore(): string {
    Unlines(GitIgnoreEntries)
  }

  /** `.gitignore` lists its five entries one to a line, the secret file
      `.env` among them. */
  lemma GitIgnoreListsSecretFile()
    ensures Lines(GitIgnore()) == GitIgnoreEntries
    ensures ".env" in Lines(GitIgnore())
  {
    assert NoNewlines(GitIgnoreEntries);
    LinesOfUnlines(GitIgnoreEntries);
  }

  // ---------------------------------------------------------------------------
  // The write plan

  /** Paths are relative to the working directory, or to the directory the
      scaffolder's own files are installed in. */
  datatype Root = WorkingDir | PackageDir
  datatype Path = Path(root: Root, segments: seq<string>)

  datatype FileOp =
    | CopyFile(source: Path, target: Path)
    | CopyTree(source: Path, target: Path)
    | WriteText(target: Path, text: string)
    | WriteJson(target: Path, value: Json)

  /** The directories created one after the other, then the operations
      started together and awaited together. */
  datatype WritePlan = WritePlan(directories: seq<Path>, writes: seq<FileOp>)

  /** What `writeFiles` does, as data: the configuration carries the
      compatibility date computed from the clock reading `now`. */
  function Plan(projectName: string, now: CompatDate.Date, secret: seq<Base64.byte>): WritePlan
    requires CompatDate.ValidDate(now)
  {
    PlanWith(projectName, DotEnv(secret), WranglerJsonc(projectName, CompatDate.CompatibilityDate(now)))
  }

  /** The plan once the `.env` and `wrangler.jsonc` texts are rendered. */
  function PlanWith(projectName: string, env: string, config: string): WritePlan {
    var dir := Path(WorkingDir, [projectName]);
    var In := (f: string) => Path(WorkingDir, [projectName, f]);
    var Bundled := (f: string) => Path(PackageDir, [f]);
    WritePlan(
      [dir, In("src")],
      [ CopyFile(Bundled("ace.config.js"), In("ace.config.js")),
        CopyFile(Bundled("tsconfig.json"), In("tsconfig.json")),
        CopyFile(Bundled("tsconfig.typesafe.json"), In("tsconfig.typesafe.json")),
        CopyTree(Bundled("src"), In("src")),
        WriteText(In(".env"), env),
        WriteJson(In("package.json"), PackageDotJson(projectName)),
        WriteText(In(".gitignore"), GitIgnore()),
        WriteText(In("wrangler.jsonc"), config) ])
  }

  predicate IsPrefix(a: seq<string>, b: seq<string>) {
    |a| <= |b| && b[..|a|] == a
  }

  /** The file names inside the project directory, in the order the writes
      are started. */
  const WriteNames: seq<string> := ["ace.config.js", "tsconfig.json", "tsconfig.typesafe.json", "src", ".env", "package.json", ".gitignore", "wrangler.jsonc"]

  /** The eight names are pairwise different. */
  lemma WriteNamesDistinct()
    ensures |WriteNames| == 8
    ensures forall i, j :: 0 <= i < 8 && 0 <= j < 8 && i != j ==> WriteNames[i] != WriteNames[j]
  {
    forall i, j | 0 <= i < 8 && 0 <= j < 8 && i != j
      ensures WriteNames[i] != WriteNames[j]
    {
      if |WriteNames[i]| == |WriteNames[j]| {
        assert WriteNames[i][0] != WriteNames[j][0];
      }
    }
  }

  /** Every write of the plan targets `<projectName>/<name>` for the name of
      its place, each copy takes the bundled file of that name, and the four
      rendered files carry the renderers' texts, the configuration with the
      compatibility date of the clock reading `now`. */
  lemma {:induction false} PlanTargets(projectName: string, now: CompatDate.Date, secret: seq<Base64.byte>)
    requires CompatDate.ValidDate(now)
    ensures var p := Plan(projectName, now, secret);
      p.directories == [Path(WorkingDir, [projectName]), Path(WorkingDir, [projectName, "src"])]
      && |p.writes| == 8
      && (forall i :: 0 <= i < 8 ==> p.writes[i].target == Path(WorkingDir, [projectName, WriteNames[i]]))
      && (forall i :: 0 <= i < 8 && (p.writes[i].CopyFile? || p.writes[i].CopyTree?) ==>
            p.writes[i].source == Path(PackageDir, [WriteNames[i]]))
    ensures var p := Plan(projectName, now, secret);
      |p.writes| == 8
      && p.writes[4] == WriteText(Path(WorkingDir, [projectName, ".env"]), DotEnv(secret))
      && p.writes[5] == WriteJson(Path(WorkingDir, [projectName, "package.json"]), PackageDotJson(projectName))
      && p.writes[6] == WriteText(Path(WorkingDir, [projectName, ".gitignore"]), GitIgnore())
      && p.writes[7] == WriteText(Path(WorkingDir, [projectName, "wrangler.jsonc"]),
           WranglerJsonc(projectName, CompatDate.CompatibilityDate(now)))
  {
    var env := DotEnv(secret);
    var config := WranglerJsonc(projectName, CompatDate.CompatibilityDate(now));
    assert Plan(projectName, now, secret) == PlanWith(projectName, env, config);
    PlanWithTargets(projectName, env, config);
  }

  /** The same for the plan of given `.env` and configuration texts. */
  lemma PlanWithTargets(projectName: string, env: string, config: string)
    ensures var p := PlanWith(projectName, env, config);
      p.directories == [Path(WorkingDir, [projectName]), Path(WorkingDir, [projectName, "src"])]
      && |p.writes| == 8
      && (forall i :: 0 <= i < 8 ==> p.writes[i].target == Path(WorkingDir, [projectName, WriteNames[i]]))
      && (forall i :: 0 <= i < 8 && (p.writes[i].CopyFile? || p.writes[i].CopyTree?) ==>
            p.writes[i].source == Path(PackageDir, [WriteNames[i]]))
    ensures var p := PlanWith(projectName, env, config);
      |p.writes| == 8
      && p.writes[4] == WriteText(Path(WorkingDir, [projectName, ".env"]), env)
      && p.writes[5] == WriteJson(Path(WorkingDir, [projectName, "package.json"]), PackageDotJson(projectName))
      && p.writes[6] == WriteText(Path(WorkingDir, [projectName, ".gitignore"]), GitIgnore())
      && p.writes[7] == WriteText(Path(WorkingDir, [projectName, "wrangler.jsonc"]), config)
  {
  }

  /** The two directories are made first, the project directory before its
      `src`; every concurrent write lands directly in the project directory,
      and no write's target is, or lies in, another's, so the writes do not
      depend on each other. Each copy takes the bundled file of the same
      name. */
  lemma {:induction false} PlanWritesAreDisjoint(projectName: string, now: CompatDate.Date, secret: seq<Base64.byte>)
    requires CompatDate.ValidDate(now)
    ensures var p := Plan(projectName, now, secret);
      p.directories == [Path(WorkingDir, [projectName]), Path(WorkingDir, [projectName, "src"])]
      && |p.writes| == 8
      && (forall i :: 0 <= i < 8 ==>
            p.writes[i].target.root == WorkingDir && |p.writes[i].target.segments| == 2
            && p.writes[i].target.segments[0] == projectName)
      && (forall i, j :: 0 <= i < 8 && 0 <= j < 8 && i != j ==>
            !IsPrefix(p.writes[i].target.segments, p.writes[j].target.segments))
      && (forall i :: 0 <= i < 8 && (p.writes[i].CopyFile? || p.writes[i].CopyTree?) ==>
            p.writes[i].source == Path(PackageDir, [p.writes[i].target.segments[1]]))
  {
    var w := Plan(projectName, now, secret).writes;
    PlanTargets(projectName, now, secret);
    WriteNamesDistinct();
    forall i, j | 0 <= i < 8 && 0 <= j < 8 && i != j
      ensures !IsPrefix(w[i].target.segments, w[j].target.segments)
    {
      var a, b := w[i].target.segments, w[j].target.segments;
      assert a == [projectName, WriteNames[i]] && b == [projectName, WriteNames[j]];
      assert a[1] != b[1];
    }
  }

  /** For a name the prompt accepted, `package.json` and `wrangler.jsonc` both
      name the project with it, whatever date the configuration carries. */
  lemma AcceptedNameIsWritten(answer: string, pathExists: string -> bool, date: string)
    requires '\n' !in answer
    requires ProjectName.Validate(answer, pathExists).Accepted?
    requires '"' !in date && '\n' !in date
    ensures var name := ProjectName.Validate(answer, pathExists).name;
      Member(PackageDotJson(name).members, "name") == Some(JString(name))
      && FieldValue(Lines(WranglerJsonc(name, date)), "name") == Some(name)
  {
    var name := ProjectName.Validate(answer, pathExists).name;
    ProjectName.AcceptedNameNeedsNoJsonEscape(answer, pathExists);
    ProjectName.AcceptedNameIsOneLine(answer, pathExists);
    ManifestEmbedsOnlyName(name, name);
    WranglerEmbedsNameAndDate(name, date);
  }

  /** For a valid clock date, `wrangler.jsonc` carries a compatibility date
      that reads back as the compatibility day: three days before the
      `Date.UTC` reading of the clock, which is the clock's own date outside
      years 0 to 99. */
  lemma CompatibilityDateIsWritten(projectName: string, now: CompatDate.Date)
    requires '"' !in projectName && '\n' !in projectName
    requires CompatDate.ValidDate(now)
    ensures var date := CompatDate.CompatibilityDate(now);
      FieldValue(Lines(WranglerJsonc(projectName, date)), "compatibility_date") == Some(date)
      && CompatDate.ParseDate(date) == Some(CompatDate.CompatibilityDay(now))
  {
    var date := CompatDate.CompatibilityDate(now);
    WranglerEmbedsNameAndDate(projectName, date);
  }
}
