/**
 * The command-line resume generator: which site to print, which files it writes,
 * which old dated copies it deletes, and which of its modes a command line selects.
 * The HTTP probes, the headless browser and the file system are outside the model:
 * what they answer is passed in, and the output directory is the list of its entries.
 */
module CvPdfScript {
  import opened Wrappers
  import opened Strings
  import opened Timestamps
  import opened CodeUnitOrder

  const LocalUrl: string := "http://localhost:3000"
  const ProductionUrl: string := "https://vule.dev"
  const StandardFilename: string := "Vu_Le_Resume.pdf"
  const DatedPrefix: string := "Vu_Le_Resume_"

  /** How many dated copies the cleanup keeps. */
  const KeptDatedCopies: nat := 3

  // ---------------------------------------------------------------------------
  // Choosing the site to print

  datatype Target = Target(url: string, serverType: string)

  datatype GenerateError =
    | ForcedProductionUnavailable   // production forced but not reachable
    | NoServerAvailable             // neither production nor the local server answers
    | BrowserFailed                 // the browser could not load or print the page

  /** `process.env.FORCE_PRODUCTION || process.argv.includes('--production')`: the
      variable counts when it is set to a non-empty string. */
  predicate ForcedProduction(forceEnv: Option<string>, argv: seq<string>): (b: bool)
    ensures "--production" in argv ==> b
    ensures forceEnv.None? ==> (b <==> "--production" in argv)
    ensures forceEnv == Some("") ==> (b <==> "--production" in argv)
    ensures forceEnv.Some? && forceEnv.value != "" ==> b
  {
    (forceEnv.Some? && forceEnv.value != "") || "--production" in argv
  }

  /**
   * The target decision. Forced mode takes production or fails; otherwise production
   * is preferred, the local server is the fallback, and with neither it fails.
   */
  method SelectTarget(forced: bool, productionAvailable: bool, localRunning: bool)
    returns (r: Result<Target, GenerateError>)
    ensures r.Success? <==> productionAvailable || (!forced && localRunning)
    ensures r.Success? ==> r.value.url == ProductionUrl || r.value.url == LocalUrl
    ensures productionAvailable ==> r.Success? && r.value.url == ProductionUrl
    ensures r.Success? && !productionAvailable ==> r.value.url == LocalUrl
    ensures r.Success? && r.value.url == LocalUrl ==> !forced && !productionAvailable && localRunning
    ensures r.Failure? ==> r.error == if forced then ForcedProductionUnavailable else NoServerAvailable
  {
    var targetUrl: string;
    var serverType: string;
    if forced {
      if productionAvailable {
        targetUrl := ProductionUrl;
        serverType := "production (forced)";
      } else {
        return Failure(ForcedProductionUnavailable);
      }
    } else if productionAvailable {
      targetUrl := ProductionUrl;
      serverType := "production";
    } else if localRunning {
      targetUrl := LocalUrl;
      serverType := "local development";
    } else {
      return Failure(NoServerAvailable);
    }
    r := Success(Target(targetUrl, serverType));
  }

  // ---------------------------------------------------------------------------
  // Which files the cleanup deletes

  /** The names the cleanup considers: dated resume copies. */
  predicate IsDatedResume(name: string): (b: bool)
    ensures b <==> |name| >= |DatedPrefix| + 4 && name == DatedPrefix + name[|DatedPrefix|..|name| - 4] + ".pdf"
  {
    var shaped := StartsWith(name, DatedPrefix) && EndsWith(name, ".pdf");
    assert shaped ==> name[|name| - 4] == '.';
    assert shaped ==> '.' !in name[..|DatedPrefix|];
    assert shaped ==> name == DatedPrefix + name[|DatedPrefix|..|name| - 4] + ".pdf" by {
      if shaped {
        assert name == name[..|DatedPrefix|] + name[|DatedPrefix|..|name| - 4] + name[|name| - 4..];
      }
    }
    shaped && name != StandardFilename
  }

  /** The standard file can never pass the filter, and a dated name always does. */
  lemma FilterSeparatesNames(ts: string)
    ensures !IsDatedResume(StandardFilename)
    ensures IsDatedResume(DatedResumeFilename(ts))
  {
    var name := DatedResumeFilename(ts);
    assert |name| >= 17;
  }

  /** `files.filter(IsDatedResume)`. */
  function DatedResumes(files: seq<string>): (r: seq<string>)
    ensures |r| <= |files|
    ensures forall k | 0 <= k < |r| :: IsDatedResume(r[k]) && r[k] in files
  {
    if files == [] then []
    else (if IsDatedResume(files[0]) then [files[0]] else []) + DatedResumes(files[1..])
  }

  /** The filter keeps every dated copy, as often as it occurs, and nothing else. */
  lemma {:induction false} DatedResumesCount(files: seq<string>)
    ensures forall f :: multiset(DatedResumes(files))[f] == if IsDatedResume(f) then multiset(files)[f] else 0
  {
    if files != [] {
      DatedResumesCount(files[1..]);
      assert files == [files[0]] + files[1..];
    }
  }

  /** The dated copies from the greatest name down: `sort().reverse()`. */
  function NewestFirst(files: seq<string>): (r: seq<string>)
    ensures Descending(r)
    ensures multiset(r) == multiset(DatedResumes(files))
    ensures |r| == |DatedResumes(files)|
  {
    SortThenReverse(DatedResumes(files));
    assert |multiset(Reverse(Sort(DatedResumes(files))))| == |multiset(DatedResumes(files))|;
    Reverse(Sort(DatedResumes(files)))
  }

  /** `sortedFiles.slice(3)` when there are more than three candidates, and nothing otherwise. */
  function FilesToDelete(files: seq<string>): (r: seq<string>)
    ensures |r| == if |DatedResumes(files)| > KeptDatedCopies then |DatedResumes(files)| - KeptDatedCopies else 0
    ensures multiset(r) <= multiset(DatedResumes(files))
  {
    var newest := NewestFirst(files);
    if |newest| > KeptDatedCopies then
      assert newest == newest[..KeptDatedCopies] + newest[KeptDatedCopies..];
      newest[KeptDatedCopies..]
    else []
  }

  /** The dated copies that survive the cleanup. */
  function FilesKept(files: seq<string>): (r: seq<string>)
    ensures |r| == if |DatedResumes(files)| > KeptDatedCopies then KeptDatedCopies else |DatedResumes(files)|
    ensures multiset(r) <= multiset(DatedResumes(files))
  {
    var newest := NewestFirst(files);
    if |newest| > KeptDatedCopies then
      assert newest == newest[..KeptDatedCopies] + newest[KeptDatedCopies..];
      newest[..KeptDatedCopies]
    else newest
  }

  /** Cutting a descending list leaves no name of the tail above a name of the head. */
  lemma SplitDescending(s: seq<string>, n: nat)
    requires Descending(s) && n <= |s|
    ensures multiset(s[..n]) + multiset(s[n..]) == multiset(s)
    ensures forall d, k | d in s[n..] && k in s[..n] :: Below(d, k)
  {
    assert s == s[..n] + s[n..];
    forall d, k | d in s[n..] && k in s[..n] ensures Below(d, k) {
      var a :| 0 <= a < |s| - n && s[n..][a] == d;
      var b :| 0 <= b < n && s[..n][b] == k;
      assert s[n + a] == d && s[b] == k;
    }
  }

  /**
   * The retention rule: the dated copies split into the ones kept and the ones deleted;
   * at most three are kept, none is deleted while there are at most three, and every
   * deleted name sorts no later than every kept one.
   */
  lemma CleanupKeepsGreatestThree(files: seq<string>)
    ensures multiset(FilesKept(files)) + multiset(FilesToDelete(files)) == multiset(DatedResumes(files))
    ensures |DatedResumes(files)| <= KeptDatedCopies ==> FilesToDelete(files) == []
    ensures |FilesKept(files)| == if |DatedResumes(files)| <= KeptDatedCopies then |DatedResumes(files)| else KeptDatedCopies
    ensures forall d, k | d in FilesToDelete(files) && k in FilesKept(files) :: Below(d, k)
  {
    var c := DatedResumes(files);
    var newest := NewestFirst(files);
    SortThenReverse(c);
    assert |newest| == |c| by {
      assert |multiset(newest)| == |multiset(c)|;
    }
    if |newest| > KeptDatedCopies {
      SplitDescending(newest, KeptDatedCopies);
    }
  }

  /** Only dated copies present in the directory are ever deleted. */
  lemma CleanupDeletesOnlyDatedCopies(files: seq<string>)
    ensures forall f | f in FilesToDelete(files) :: f in files && IsDatedResume(f)
  {
    CleanupKeepsGreatestThree(files);
    DatedResumesCount(files);
    forall f | f in FilesToDelete(files) ensures f in files && IsDatedResume(f) {
      assert multiset(FilesToDelete(files))[f] > 0;
      assert multiset(DatedResumes(files))[f] > 0;
    }
  }

  /** The entries of `s` whose names are not among `names`: what unlinking them leaves. */
  function Without(s: seq<string>, names: seq<string>): (r: seq<string>)
    ensures |r| <= |s|
  {
    if s == [] then []
    else (if s[0] in names then [] else [s[0]]) + Without(s[1..], names)
  }

  /** Unlinking removes every occurrence of the names given and leaves the rest. */
  lemma {:induction false} WithoutCount(s: seq<string>, names: seq<string>)
    ensures forall f :: multiset(Without(s, names))[f] == if f in names then 0 else multiset(s)[f]
  {
    if s != [] {
      WithoutCount(s[1..], names);
      assert s == [s[0]] + s[1..];
    }
  }

  lemma {:induction false} WithoutNothing(s: seq<string>)
    ensures Without(s, []) == s
  {
    if s != [] {
      WithoutNothing(s[1..]);
      assert s == [s[0]] + s[1..];
    }
  }

  /** Unlinking one name more after the others is unlinking all of them. */
  lemma {:induction false} WithoutOneMore(s: seq<string>, names: seq<string>, x: string)
    ensures Without(s, names + [x]) == Without(Without(s, names), [x])
  {
    if s != [] {
      WithoutOneMore(s[1..], names, x);
      var rest := Without(s[1..], names);
      var t := Without(s, names);
      if s[0] in names {
        assert t == rest;
        assert s[0] in names + [x];
      } else {
        assert t == [s[0]] + rest;
        assert t[0] == s[0] && t[1..] == rest;
        if s[0] == x {
          assert s[0] in names + [x];
        } else {
          assert s[0] !in names + [x];
        }
      }
    }
  }

  /** No name occurs twice in a directory listing. */
  ghost predicate NoDuplicates(entries: seq<string>)
  {
    forall f :: multiset(entries)[f] <= 1
  }

  /** Deleting one part of the dated copies of a directory without repeated names
      leaves exactly the other part among its dated copies. */
  lemma RemainingDated(files: seq<string>, kept: seq<string>, deleted: seq<string>)
    requires NoDuplicates(files)
    requires multiset(kept) + multiset(deleted) == multiset(DatedResumes(files))
    ensures multiset(DatedResumes(Without(files, deleted))) == multiset(kept)
  {
    var left := Without(files, deleted);
    DatedResumesCount(files);
    DatedResumesCount(left);
    WithoutCount(files, deleted);
    forall f ensures multiset(DatedResumes(left))[f] == multiset(kept)[f] {
      if IsDatedResume(f) && f in deleted {
        assert multiset(deleted)[f] >= 1;
        assert multiset(DatedResumes(files))[f] <= 1;
      }
    }
  }

  /** In a directory without repeated names, after the cleanup exactly the kept copies
      remain among the dated ones: three when there were more than three. */
  lemma CleanupLeavesKept(files: seq<string>)
    requires NoDuplicates(files)
    ensures multiset(DatedResumes(Without(files, FilesToDelete(files)))) == multiset(FilesKept(files))
  {
    CleanupKeepsGreatestThree(files);
    RemainingDated(files, FilesKept(files), FilesToDelete(files));
  }

  // ---------------------------------------------------------------------------
  // Command line

  datatype Command = ShowHelp | Clean | GenerateMulti | GenerateSingle

  /** The mode `main` runs for `process.argv` (the arguments after the first two). */
  function Dispatch(argv: seq<string>): (c: Command)
    ensures |argv| <= 2 ==> c == GenerateSingle
    ensures c == ShowHelp ==> "--help" in argv || "-h" in argv
    ensures c == Clean ==> "--clean" in argv
    ensures c == GenerateMulti ==> "--multi" in argv
    ensures |argv| >= 2 && c != ShowHelp && c != Clean ==>
      "--clean" !in argv[2..] && "--help" !in argv[2..] && "-h" !in argv[2..]
  {
    var args := if |argv| >= 2 then argv[2..] else [];
    if "--help" in args || "-h" in args then ShowHelp
    else if "--clean" in args then Clean
    else if "--multi" in args then GenerateMulti
    else GenerateSingle
  }

  /** Only the presence of the four flags matters, not their order or other arguments:
      help wins over clean, clean over multi, and without them one file is generated. */
  lemma DispatchPrecedence(argv: seq<string>, flag: string)
    requires |argv| >= 2
    ensures flag in {"--help", "-h"} ==> Dispatch(argv + [flag]) == ShowHelp
    ensures flag == "--clean" ==> Dispatch(argv + [flag]) == if Dispatch(argv) == ShowHelp then ShowHelp else Clean
    ensures flag == "--multi" ==> Dispatch(argv + [flag]) == if Dispatch(argv) in {ShowHelp, Clean} then Dispatch(argv) else GenerateMulti
    ensures flag !in {"--help", "-h", "--clean", "--multi"} ==> Dispatch(argv + [flag]) == Dispatch(argv)
  {
    assert (argv + [flag])[2..] == argv[2..] + [flag];
  }

  /** What a run ends with: the help text, the names cleaned up, the public address of
      the last file written, or `process.exit(1)` with the error. */
  datatype RunOutcome =
    | HelpShown
    | Cleaned(deleted: seq<string>)
    | Completed(publicUrl: string)
    | Exited(error: GenerateError)

  /** `fs.writeFileSync`: the name is an entry afterwards, created or overwritten. */
  function Written(entries: seq<string>, name: string): (r: seq<string>)
    ensures name in r
    ensures forall f :: multiset(r)[f] == if f == name then 1 else multiset(entries)[f]
    requires NoDuplicates(entries)
  {
    if name in entries then entries else entries + [name]
  }

  /** Whether one generation succeeds, given the probes (production answers, the local
      server answers, the browser prints): a target is found and the browser prints it. */
  predicate Generates(forced: bool, probes: (bool, bool, bool))
  {
    (probes.0 || (!forced && probes.1)) && probes.2
  }

  /** The error a failed generation throws: no target first, then the browser. */
  function GenerationError(forced: bool, probes: (bool, bool, bool)): GenerateError
  {
    if probes.0 || (!forced && probes.1) then BrowserFailed
    else if forced then ForcedProductionUnavailable
    else NoServerAvailable
  }

  class CvGenerator {
    /** `CONFIG.PDF_FILENAME`, which the multi-version mode changes between runs. */
    var pdfFilename: string
    /** The entries of the output directory. */
    var outputDir: seq<string>

    ghost predicate Valid()
      reads this
    {
      NoDuplicates(outputDir)
    }

    constructor (outputDir: seq<string>)
      requires NoDuplicates(outputDir)
      ensures Valid() && this.outputDir == outputDir && pdfFilename == StandardFilename
    {
      this.outputDir := outputDir;
      pdfFilename := StandardFilename;
    }

    /** One generation: choose the site, print it, write `pdfFilename`. */
    method GenerateCvPdf(forced: bool, productionAvailable: bool, localRunning: bool, browserSucceeds: bool)
      returns (r: Result<Target, GenerateError>)
      requires Valid()
      modifies this`outputDir
      ensures Valid()
      ensures r.Success? <==> (productionAvailable || (!forced && localRunning)) && browserSucceeds
      ensures r.Success? ==> r.value.url == if productionAvailable then ProductionUrl else LocalUrl
      ensures r.Success? ==> outputDir == Written(old(outputDir), pdfFilename)
      ensures r.Failure? ==> outputDir == old(outputDir)
      ensures r.Failure? ==> r.error == GenerationError(forced, (productionAvailable, localRunning, browserSucceeds))
    {
      var target := SelectTarget(forced, productionAvailable, localRunning);
      if target.Failure? {
        return Failure(target.error);
      }
      if !browserSucceeds {
        return Failure(BrowserFailed);
      }
      outputDir := Written(outputDir, pdfFilename);
      r := Success(target.value);
    }

    /** The standard file, then the dated copy; a failure of the first stops the second. */
    method GenerateMultipleVersions(timestamp: string, forced: bool, first: (bool, bool, bool), second: (bool, bool, bool))
      returns (r: Result<seq<string>, GenerateError>)
      requires Valid()
      modifies this
      ensures Valid()
      ensures r.Success? ==> r.value == [StandardFilename, DatedResumeFilename(timestamp)]
      ensures r.Success? ==> outputDir == Written(Written(old(outputDir), StandardFilename), DatedResumeFilename(timestamp))
      ensures r.Success? ==> pdfFilename == DatedResumeFilename(timestamp)
      ensures r.Success? <==> Generates(forced, first) && Generates(forced, second)
      ensures !Generates(forced, first) ==>
        && r == Failure(GenerationError(forced, first))
        && pdfFilename == StandardFilename && outputDir == old(outputDir)
      ensures Generates(forced, first) && !Generates(forced, second) ==>
        && r == Failure(GenerationError(forced, second))
        && pdfFilename == DatedResumeFilename(timestamp)
        && outputDir == Written(old(outputDir), StandardFilename)
    {
      pdfFilename := StandardFilename;
      var one := GenerateCvPdf(forced, first.0, first.1, first.2);
      if one.Failure? {
        return Failure(one.error);
      }
      pdfFilename := DatedResumeFilename(timestamp);
      var two := GenerateCvPdf(forced, second.0, second.1, second.2);
      if two.Failure? {
        return Failure(two.error);
      }
      r := Success([StandardFilename, DatedResumeFilename(timestamp)]);
    }

    /** Deletes the dated copies outside the three greatest names, one by one. */
    method CleanupOldPdfs() returns (deleted: seq<string>)
      requires Valid()
      modifies this`outputDir
      ensures Valid()
      ensures deleted == FilesToDelete(old(outputDir))
      ensures outputDir == Without(old(outputDir), deleted)
    {
      var files := outputDir;
      deleted := FilesToDelete(files);
      UnlinkEach(deleted);
      WithoutCount(files, deleted);
    }

    /** The `forEach` of the cleanup: unlinks the names one after the other. */
    method UnlinkEach(names: seq<string>)
      modifies this`outputDir
      ensures outputDir == Without(old(outputDir), names)
    {
      var files := outputDir;
      WithoutNothing(files);
      for k := 0 to |names|
        invariant outputDir == Without(files, names[..k])
      {
        WithoutOneMore(files, names[..k], names[k]);
        assert names[..k + 1] == names[..k] + [names[k]];
        outputDir := Without(outputDir, [names[k]]);
      }
      assert names[..|names|] == names;
    }

    /** `main`: the mode the flags select, then the address printed at the end. */
    method Run(argv: seq<string>, forceEnv: Option<string>, timestamp: string, first: (bool, bool, bool), second: (bool, bool, bool))
      returns (outcome: RunOutcome)
      requires Valid()
      modifies this
      ensures Valid()
      ensures Dispatch(argv) == ShowHelp ==> outcome == HelpShown && outputDir == old(outputDir)
      ensures Dispatch(argv) == Clean ==>
        outcome == Cleaned(FilesToDelete(old(outputDir)))
        && outputDir == Without(old(outputDir), FilesToDelete(old(outputDir)))
      ensures Dispatch(argv) in {ShowHelp, Clean, GenerateSingle} ==> pdfFilename == old(pdfFilename)
      ensures Dispatch(argv) in {GenerateMulti, GenerateSingle} ==> outcome.Completed? || outcome.Exited?
      ensures outcome.Completed? ==> outcome.publicUrl == ProductionUrl + "/" + pdfFilename
      ensures Dispatch(argv) == GenerateSingle ==>
        var forced := ForcedProduction(forceEnv, argv);
        if Generates(forced, first) then
          outcome == Completed(ProductionUrl + "/" + old(pdfFilename))
          && outputDir == Written(old(outputDir), old(pdfFilename))
        else
          outcome == Exited(GenerationError(forced, first)) && outputDir == old(outputDir)
      ensures Dispatch(argv) == GenerateMulti ==>
        var forced := ForcedProduction(forceEnv, argv);
        var dated := DatedResumeFilename(timestamp);
        if !Generates(forced, first) then
          outcome == Exited(GenerationError(forced, first))
          && pdfFilename == StandardFilename && outputDir == old(outputDir)
        else if !Generates(forced, second) then
          outcome == Exited(GenerationError(forced, second))
          && pdfFilename == dated && outputDir == Written(old(outputDir), StandardFilename)
        else
          outcome == Completed(ProductionUrl + "/" + dated)
          && pdfFilename == dated
          && outputDir == Written(Written(old(outputDir), StandardFilename), dated)
    {
      var forced := ForcedProduction(forceEnv, argv);
      var command := Dispatch(argv);
      match command {
        case ShowHelp =>
          outcome := HelpShown;
        case Clean =>
          var deleted := CleanupOldPdfs();
          outcome := Cleaned(deleted);
        case GenerateMulti =>
          var r := GenerateMultipleVersions(timestamp, forced, first, second);
          outcome := if r.Success? then Completed(ProductionUrl + "/" + pdfFilename) else Exited(r.error);
        case GenerateSingle =>
          var r := GenerateCvPdf(forced, first.0, first.1, first.2);
          outcome := if r.Success? then Completed(ProductionUrl + "/" + pdfFilename) else Exited(r.error);
      }
    }
  }
}
