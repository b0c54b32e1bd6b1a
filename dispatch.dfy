/** How `main` turns a scanned project name into a project: the kind of
    build tool is chosen by the name's prefix, and each kind has its own
    template, directories and watch command. */
module Dispatch {
  import opened Wrappers
  import opened JavaString
  import opened Sources
  import Args

  datatype Kind = Sbt | Mill | Gradle

  /** The `IllegalArgumentException` `main` throws for any other name. */
  datatype DispatchError = IllegalArgument(message: string)

  /** The prefix test of `main`: `sbt`, then `mill`, then `gradle`. */
  function Classify(name: string): (r: Result<Kind, DispatchError>)
    ensures r.Success? <==> StartsWith(name, "sbt") || StartsWith(name, "mill") || StartsWith(name, "gradle")
    ensures r.Failure? ==> r.error == IllegalArgument("Cannot create a project from name " + name)
  {
    if StartsWith(name, "sbt") then Success(Sbt)
    else if StartsWith(name, "mill") then Success(Mill)
    else if StartsWith(name, "gradle") then Success(Gradle)
    else Failure(IllegalArgument("Cannot create a project from name " + name))
  }

  /** The three prefixes exclude each other, so the kind is the one whose
      prefix the name has, whatever the order of the tests. */
  lemma ClassifyByPrefix(name: string)
    ensures Classify(name) == Success(Sbt) <==> StartsWith(name, "sbt")
    ensures Classify(name) == Success(Mill) <==> StartsWith(name, "mill")
    ensures Classify(name) == Success(Gradle) <==> StartsWith(name, "gradle")
  {
    if StartsWith(name, "sbt") {
      assert name[0] == 's';
    } else if StartsWith(name, "mill") {
      assert name[0] == 'm';
    } else if StartsWith(name, "gradle") {
      assert name[0] == 'g';
    }
  }

  /** What setting a project up fixes: the template tree copied into the
      workspace, the output directory, the source root and the watch-mode
      command line. */
  datatype Layout = Layout(template: string, baseDirectory: Path, projectBaseDirectory: Path, command: seq<string>)

  /** `sbtProject`, `millProject` and `gradleProject`, chosen by `Classify`.
      The mill project ignores the version in its name and nests its
      sources in `AkkaTest`. */
  function ProjectLayout(workspace: Path, name: string): (r: Result<Layout, DispatchError>)
    ensures r.Success? <==> Classify(name).Success?
    ensures r.Success? ==> |r.value.baseDirectory| <= |r.value.projectBaseDirectory|
    ensures r.Success? ==> r.value.projectBaseDirectory[..|r.value.baseDirectory|] == r.value.baseDirectory
    ensures r.Success? ==> r.value.baseDirectory == workspace + [r.value.template]
    ensures r.Success? && Classify(name) != Success(Mill) ==>
              r.value.template == name && r.value.projectBaseDirectory == r.value.baseDirectory
    ensures r.Success? && Classify(name) == Success(Mill) ==>
              r.value.template == "mill" && r.value.projectBaseDirectory == r.value.baseDirectory + ["AkkaTest"]
    ensures Classify(name) == Success(Sbt) ==> r.Success? && r.value.command == ["sbt", "~test"]
    ensures Classify(name) == Success(Mill) ==> r.Success? && r.value.command == ["mill", "-w", "AkkaTest.test"]
    ensures Classify(name) == Success(Gradle) ==> r.Success? && r.value.command == ["gradle", "-t", "spec"]
  {
    match Classify(name)
    case Success(Sbt) => Success(Layout(name, workspace + [name], workspace + [name], ["sbt", "~test"]))
    case Success(Mill) =>
      Success(Layout("mill", workspace + ["mill"], workspace + ["mill", "AkkaTest"], ["mill", "-w", "AkkaTest.test"]))
    case Success(Gradle) => Success(Layout(name, workspace + [name], workspace + [name], ["gradle", "-t", "spec"]))
    case Failure(e) => Failure(e)
  }

  /** Two accepted names share an output directory exactly when they are
      the same name or both mill names: the mill version is not part of
      the directory. Each project's mutation target lies inside its own
      output directory. */
  lemma SharedOutputDirectory(workspace: Path, a: string, b: string)
    requires Classify(a).Success? && Classify(b).Success?
    ensures (ProjectLayout(workspace, a).value.baseDirectory == ProjectLayout(workspace, b).value.baseDirectory)
              <==> (a == b || (Classify(a) == Success(Mill) && Classify(b) == Success(Mill)))
    ensures var l := ProjectLayout(workspace, a).value;
      && |l.baseDirectory| <= |MainSourcePath(l.projectBaseDirectory)|
      && MainSourcePath(l.projectBaseDirectory)[..|l.baseDirectory|] == l.baseDirectory
  {
    var la := ProjectLayout(workspace, a).value;
    var lb := ProjectLayout(workspace, b).value;
    assert la.baseDirectory[|workspace|] == la.template;
    assert lb.baseDirectory[|workspace|] == lb.template;
    if Classify(a) == Success(Mill) && Classify(b) != Success(Mill) {
      ClassifyByPrefix(b);
      assert b[0] != 'm';
    } else if Classify(a) != Success(Mill) && Classify(b) == Success(Mill) {
      ClassifyByPrefix(a);
      assert a[0] != 'm';
    }
    var main := MainSourcePath(la.projectBaseDirectory);
    assert main[..|la.baseDirectory|] == la.baseDirectory by {
      assert main == la.projectBaseDirectory + (SrcDirectory("main") + ["AkkaMain.scala"]);
      assert la.projectBaseDirectory[..|la.baseDirectory|] == la.baseDirectory;
    }
  }

  /** The kinds of the four recognised names. */
  lemma RecognisedKinds()
    ensures Classify("sbt-0.13.17") == Success(Sbt) && Classify("sbt-1.3.0") == Success(Sbt)
    ensures Classify("mill-0.3.6") == Success(Mill) && Classify("gradle-5.4.1") == Success(Gradle)
  {
    ClassifyByPrefix("mill-0.3.6");
    ClassifyByPrefix("gradle-5.4.1");
    assert "sbt-0.13.17"[..3] == "sbt" && "sbt-1.3.0"[..3] == "sbt";
    assert "mill-0.3.6"[..4] == "mill";
    assert "gradle-5.4.1"[..6] == "gradle";
  }

  /** The dispatch never throws for a configuration the scanner produced:
      every project it lists has a layout. */
  lemma ScannedProjectsDispatch(args: seq<string>)
    requires Args.Scanned(args).Success?
    ensures forall p :: p in Args.Scanned(args).value.projects ==> Classify(p).Success?
  {
    Args.ProjectsRecognised(args);
    RecognisedKinds();
  }
}
