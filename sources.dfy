/** The project's files as the driver writes them: the source-directory
    convention, the mutation target `AkkaMain.scala` and its tagged
    rewrites, the generated filler sources, and `getModifiedTimeOrZero`.
    The file system is a map from paths (sequences of segments) to file
    contents. */
module Sources {
  import opened Wrappers
  import opened JavaInt
  import opened JavaString

  type Path = seq<string>
  type Files = map<Path, string>

  /** `srcDirectory(config)`: `src/<config>/scala/sbt/benchmark`. */
  function SrcDirectory(config: string): (r: Path)
    ensures |r| == 5 && r[0] == "src" && r[1] == config
  {
    ["src", config, "scala", "sbt", "benchmark"]
  }

  /** Where the mutation target lives under a project root. */
  function MainSourcePath(root: Path): Path
  {
    root + SrcDirectory("main") + ["AkkaMain.scala"]
  }

  /** Where the test driver lives under a project root. */
  function TestSourcePath(root: Path): Path
  {
    root + SrcDirectory("test") + ["AkkaPerfTest.scala"]
  }

  /** `getModifiedTimeOrZero`: the modification time in milliseconds, or 0
      when it cannot be read (`None`). */
  function OrZero(mtime: Option<Long>): (r: Long)
    ensures mtime.Some? ==> r == mtime.value
    ensures mtime.None? ==> r == 0
  {
    if mtime.Some? then mtime.value else 0
  }

  /** A materialised project: its output directory (where `watch.out`
      appears), its source root, and the mutation target with its original
      content. */
  datatype Project = Project(
    baseDirectory: Path,
    projectBaseDirectory: Path,
    akkaMainContent: string,
    akkaMainPath: Path)

  /** The `Project` constructor: writes the mutation target and the test
      driver under the source root. The two contents come from bundled
      resources and are parameters here. */
  function NewProject(files: Files, baseDirectory: Path, projectBaseDirectory: Path,
                      mainContent: string, testContent: string): (r: (Project, Files))
    ensures r.0.baseDirectory == baseDirectory && r.0.projectBaseDirectory == projectBaseDirectory
    ensures r.0.akkaMainPath == MainSourcePath(projectBaseDirectory) && r.0.akkaMainContent == mainContent
    ensures r.1.Keys == files.Keys + {MainSourcePath(projectBaseDirectory), TestSourcePath(projectBaseDirectory)}
    ensures r.1[r.0.akkaMainPath] == mainContent
    ensures r.1[TestSourcePath(projectBaseDirectory)] == testContent
    ensures forall p :: p in files && p != MainSourcePath(projectBaseDirectory) && p != TestSourcePath(projectBaseDirectory)
              ==> r.1[p] == files[p]
  {
    var main := MainSourcePath(projectBaseDirectory);
    var test := TestSourcePath(projectBaseDirectory);
    assert main[|projectBaseDirectory| + 1] == "main" && test[|projectBaseDirectory| + 1] == "test";
    (Project(baseDirectory, projectBaseDirectory, mainContent, main), files[main := mainContent][test := testContent])
  }

  /** What `updateAkkaMain` writes: the original content, a newline and a
      line comment holding the tag. */
  function AkkaMainContent(original: string, tag: string): string
  {
    original + "\n//" + tag
  }

  /** `updateAkkaMain`: rewrites the mutation target and returns its
      modification time, `mtime` being what the file system reports then.
      The random UUID is the parameter `tag`. */
  function UpdateAkkaMain(files: Files, project: Project, tag: string, mtime: Option<Long>): (r: (Files, Long))
    ensures project.akkaMainPath in r.0
    ensures StartsWith(r.0[project.akkaMainPath], project.akkaMainContent)
  {
    (files[project.akkaMainPath := AkkaMainContent(project.akkaMainContent, tag)], OrZero(mtime))
  }

  /** An update writes the mutation target, creating it if need be, leaves
      every other file as it was, and reports the time read back (0 when it
      cannot be read). */
  lemma UpdateAkkaMainEffect(files: Files, project: Project, tag: string, mtime: Option<Long>)
    ensures var r := UpdateAkkaMain(files, project, tag, mtime);
      && r.0.Keys == files.Keys + {project.akkaMainPath}
      && r.0[project.akkaMainPath] == AkkaMainContent(project.akkaMainContent, tag)
      && (forall p :: p in files && p != project.akkaMainPath ==> r.0[p] == files[p])
      && r.1 == (if mtime.Some? then mtime.value else 0)
  {
  }

  /** The original content is always a prefix of the rewritten file, and
      the tag can be read back after it: different tags give different
      files, so every mutation is visible. */
  lemma AkkaMainKeepsOriginal(original: string, tag: string, other: string)
    ensures StartsWith(AkkaMainContent(original, tag), original)
    ensures AkkaMainContent(original, tag)[|original| + 3..] == tag
    ensures AkkaMainContent(original, tag) == AkkaMainContent(original, other) ==> tag == other
  {
    var c := AkkaMainContent(original, tag);
    assert c[..|original|] == original;
    assert c[|original| + 3..] == tag;
    assert AkkaMainContent(original, other)[|original| + 3..] == other;
  }

  /** Two updates in a row leave only the second tag: updates replace the
      previous tag instead of accumulating. */
  lemma UpdatesReplaceTag(files: Files, project: Project, first: string, second: string,
                          m1: Option<Long>, m2: Option<Long>)
    ensures UpdateAkkaMain(UpdateAkkaMain(files, project, first, m1).0, project, second, m2).0
         == UpdateAkkaMain(files, project, second, m2).0
    ensures |UpdateAkkaMain(UpdateAkkaMain(files, project, first, m1).0, project, second, m2).0[project.akkaMainPath]|
         == |project.akkaMainContent| + 3 + |second|
  {
  }

  // ----- Generated filler sources -----

  /** The comment line `generatedSource` appends 75 times. */
  const Filler: string := "// ******************************************************************"

  const PackageLine: string := "package sbt.benchmark.blah"

  const ClassPrefix: string := "class Blah"

  /** What precedes the counter: the package line, two newlines and the
      start of the class declaration. */
  const ClassHeader: string := PackageLine + "\n\n" + ClassPrefix

  /** How many filler lines a generated file holds. Written as a function so
      that the verifier does not unroll `Repeat` at a literal count. */
  function FillerLines(): nat
  {
    75
  }

  /** The filler lines, with no separators between them. */
  function FillerBlock(): (r: string)
    ensures |r| == 75 * 69
  {
    RepeatLength(Filler, FillerLines());
    Repeat(Filler, FillerLines())
  }

  /** The text `generatedSource(counter)` builds: the package line, two
      newlines, the class declaration `Blah<counter>`, then the filler
      lines. */
  function SourceText(counter: int): string
  {
    ClassHeader + Decimal(counter) + FillerBlock()
  }

  /** `generatedSource`: the `StringBuilder` loop. */
  method GeneratedSource(counter: Int32) returns (r: string)
    ensures r == SourceText(counter)
  {
    var digits := Decimal(counter);
    var result := PackageLine;
    result := result + ['\n'];
    result := result + ['\n'];
    result := result + (ClassPrefix + digits);
    HeaderText(digits);
    ghost var header := ClassHeader + digits;
    assert result == header;
    var i := 0;
    while i < FillerLines()
      invariant 0 <= i <= FillerLines()
      invariant result == header + Repeat(Filler, i)
    {
      AppendRepeat(header, Filler, i);
      result := result + Filler;
      i := i + 1;
    }
    assert result == ClassHeader + digits + FillerBlock();
    r := result;
  }

  /** The header spelled out: 38 characters. */
  lemma ClassHeaderText()
    ensures ClassHeader == "package sbt.benchmark.blah\n\nclass Blah"
    ensures |ClassHeader| == 38
  {
  }

  lemma HeaderText(digits: string)
    ensures PackageLine + ['\n'] + ['\n'] + (ClassPrefix + digits) == ClassHeader + digits
  {
  }

  /** The generated file for `counter` declares class `Blah<counter>`: its
      length is fixed by the counter's decimal form, and the counter can be
      read back from it. */
  lemma SourceTextShape(counter: Int32)
    ensures |SourceText(counter)| == 38 + |Decimal(counter)| + 75 * 69
    ensures StartsWith(SourceText(counter), ClassHeader)
    ensures ParseInt(SourceText(counter)[38..38 + |Decimal(counter)|]) == Some(counter)
  {
    var d := Decimal(counter);
    var t := SourceText(counter);
    ClassHeaderText();
    assert t[..38] == ClassHeader;
    assert t[38..38 + |d|] == d;
    ParseDecimal(counter);
  }

  /** Different counters give different file contents. */
  lemma SourceTextInjective(a: int, b: int)
    requires SourceText(a) == SourceText(b)
    ensures a == b
  {
    ClassHeaderText();
    assert SourceText(a)[38..38 + |Decimal(a)|] == Decimal(a);
    assert SourceText(b)[38..38 + |Decimal(b)|] == Decimal(b);
    DecimalInjective(a, b);
  }

  /** The directory `genSources` fills. */
  function BlahDirectory(root: Path): Path
  {
    root + SrcDirectory("main") + ["blah"]
  }

  /** The path of filler source number `i`: `Blah<i>.scala`. */
  function BlahPath(root: Path, i: int): Path
  {
    BlahDirectory(root) + ["Blah" + Decimal(i) + ".scala"]
  }

  /** Different numbers name different files. */
  lemma BlahPathInjective(root: Path, a: int, b: int)
    requires BlahPath(root, a) == BlahPath(root, b)
    ensures a == b
  {
    var n := |root| + 6;
    var na := BlahPath(root, a)[n];
    var nb := BlahPath(root, b)[n];
    assert na == "Blah" + Decimal(a) + ".scala";
    assert nb == "Blah" + Decimal(b) + ".scala";
    assert na[4..|na| - 6] == Decimal(a);
    assert nb[4..|nb| - 6] == Decimal(b);
    DecimalInjective(a, b);
  }

  /** The files `genSources(count)` writes: `Blah<i>.scala` holding
      `generatedSource(i)` for every `1 <= i <= count`, written in order. */
  function GeneratedFiles(root: Path, count: int): Files
    decreases count
  {
    if count <= 0 then map[]
    else GeneratedFiles(root, count - 1)[BlahPath(root, count) := SourceText(count)]
  }

  /** Every file written is one of the numbered paths. */
  lemma {:induction false} GeneratedOnly(root: Path, count: int, p: Path)
    requires p in GeneratedFiles(root, count)
    ensures exists i :: 1 <= i <= count && p == BlahPath(root, i)
    decreases count
  {
    if p != BlahPath(root, count) {
      GeneratedOnly(root, count - 1, p);
    }
  }

  /** File number `i` is written, with the text for counter `i`: later
      files never overwrite it. */
  lemma {:induction false} GeneratedAt(root: Path, count: int, i: int)
    requires 1 <= i <= count
    ensures BlahPath(root, i) in GeneratedFiles(root, count)
    ensures GeneratedFiles(root, count)[BlahPath(root, i)] == SourceText(i)
    decreases count
  {
    if i < count {
      GeneratedAt(root, count - 1, i);
      if BlahPath(root, i) == BlahPath(root, count) {
        BlahPathInjective(root, i, count);
      }
    }
  }

  /** The next file is new: no earlier file has its path. */
  lemma GeneratedFresh(root: Path, n: nat)
    ensures BlahPath(root, n + 1) !in GeneratedFiles(root, n)
  {
    if BlahPath(root, n + 1) in GeneratedFiles(root, n) {
      GeneratedOnly(root, n, BlahPath(root, n + 1));
      var i :| 1 <= i <= n && BlahPath(root, n + 1) == BlahPath(root, i);
      BlahPathInjective(root, i, n + 1);
    }
  }

  lemma AddFresh(files: Files, p: Path, content: string)
    requires p !in files
    ensures |files[p := content]| == |files| + 1
  {
    assert files[p := content].Keys == files.Keys + {p};
  }

  /** `genSources(count)` writes exactly `count` distinct files. */
  lemma {:induction false} GeneratedFilesCount(root: Path, count: nat)
    ensures |GeneratedFiles(root, count)| == count
    decreases count
  {
    if count > 0 {
      GeneratedFilesCount(root, count - 1);
      GeneratedFresh(root, count - 1);
      AddFresh(GeneratedFiles(root, count - 1), BlahPath(root, count), SourceText(count));
    }
  }

  /** The generated files sit in the `blah` directory and never overwrite
      the mutation target or the test driver. */
  lemma GeneratedSparesProject(root: Path, count: int)
    ensures MainSourcePath(root) !in GeneratedFiles(root, count)
    ensures TestSourcePath(root) !in GeneratedFiles(root, count)
    ensures forall p :: p in GeneratedFiles(root, count) ==> |p| == |root| + 7 && p[..|root| + 6] == BlahDirectory(root)
  {
    forall p | p in GeneratedFiles(root, count)
      ensures |p| == |root| + 7 && p[..|root| + 6] == BlahDirectory(root)
    {
      GeneratedOnly(root, count, p);
    }
    assert |MainSourcePath(root)| == |root| + 6 && |TestSourcePath(root)| == |root| + 6;
  }

  /** Writing the next file over `files` plus the earlier ones. */
  lemma WriteNext(files: Files, root: Path, n: nat)
    ensures (files + GeneratedFiles(root, n))[BlahPath(root, n + 1) := SourceText(n + 1)] == files + GeneratedFiles(root, n + 1)
  {
  }

  /** What writing the generated files over `files` leaves in place. */
  lemma Overwrite(files: Files, root: Path, count: int)
    ensures forall i :: 1 <= i <= count ==>
      BlahPath(root, i) in files + GeneratedFiles(root, count) && (files + GeneratedFiles(root, count))[BlahPath(root, i)] == SourceText(i)
    ensures (files + GeneratedFiles(root, count)).Keys == files.Keys + GeneratedFiles(root, count).Keys
    ensures forall p :: p in files && p !in GeneratedFiles(root, count) ==> (files + GeneratedFiles(root, count))[p] == files[p]
  {
    forall i | 1 <= i <= count
      ensures BlahPath(root, i) in GeneratedFiles(root, count) && GeneratedFiles(root, count)[BlahPath(root, i)] == SourceText(i)
    {
      GeneratedAt(root, count, i);
    }
  }

  /** `Project.genSources`: writes the filler files one by one.
      `Files.write` creates or truncates each file; what the files held
      before is replaced, everything else is left alone. A count of
      `Integer.MAX_VALUE` would make the Java loop counter wrap and never
      finish, so it is excluded. */
  method GenSources(files: Files, root: Path, count: Int32) returns (result: Files)
    requires count < MaxInt
    ensures result == files + GeneratedFiles(root, count)
    ensures forall i :: 1 <= i <= count ==> BlahPath(root, i) in result && result[BlahPath(root, i)] == SourceText(i)
    ensures result.Keys == files.Keys + GeneratedFiles(root, count).Keys
    ensures forall p :: p in files && p !in GeneratedFiles(root, count) ==> result[p] == files[p]
    ensures count <= 0 ==> result == files
  {
    result := files;
    var i: Int32 := 1;
    while i <= count
      invariant 1 <= i && (count >= 1 ==> i <= count + 1) && (count < 1 ==> i == 1)
      invariant result == files + GeneratedFiles(root, i - 1)
      decreases count - i
    {
      var text := GeneratedSource(i);
      var done: nat := i - 1;
      WriteNext(files, root, done);
      assert done + 1 == i;
      result := result[BlahPath(root, i) := text];
      assert result == files + GeneratedFiles(root, i);
      i := i + 1;
    }
    Overwrite(files, root, count);
  }

  /** Generating the same count again changes nothing. */
  lemma GenSourcesIdempotent(files: Files, root: Path, count: int)
    ensures files + GeneratedFiles(root, count) + GeneratedFiles(root, count) == files + GeneratedFiles(root, count)
  {
  }
}
