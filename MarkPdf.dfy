/** markpdf.js: the converter that keeps the user's files. Setup creates the
    HTML wrapper and the stylesheet only where they are missing, cleanup
    deletes a working file only while it still equals its template, and a
    printed PDF goes through the post-processing chain. */
module MarkPdf {
  import opened Wrappers
  import opened Errors
  import opened Paths
  import opened Naming
  import opened Files
  import opened Markserv
  import opened Processes
  import opened PostProcess
  import Metadata
  import Text

  /** setupWorkingDirectory (markpdf.js:32-60) on a file table: both
      templates must exist, the index template checked first; then the
      wrapper and the stylesheet are each created only when absent. */
  function SkipSetup(files: Table, j: Job): Result<Table, Failure> {
    if IndexTemplate(j) !in files then Failure(TemplateNotFound(IndexTemplate(j)))
    else if StylesTemplate(j) !in files then Failure(TemplateNotFound(StylesTemplate(j)))
    else
      var withIndex :=
        if WorkingIndex(j) in files then files
        else files[WorkingIndex(j) := Wrapper(files[IndexTemplate(j)], j)];
      Success(
        if WorkingStyles(j) in withIndex then withIndex
        else withIndex[WorkingStyles(j) := withIndex[StylesTemplate(j)]])
  }

  /** Setup fails exactly when a template is missing, naming the index
      template when both are. */
  lemma SkipSetupChecks(files: Table, j: Job)
    ensures var r := SkipSetup(files, j);
      && (r.Failure? <==> IndexTemplate(j) !in files || StylesTemplate(j) !in files)
      && (IndexTemplate(j) !in files ==> r == Failure(TemplateNotFound(IndexTemplate(j))))
      && ((IndexTemplate(j) in files && StylesTemplate(j) !in files)
            ==> r == Failure(TemplateNotFound(StylesTemplate(j))))
  {
  }

  /** A successful setup never changes an existing file and adds exactly the
      missing working files: the wrapper as the index template with the
      placeholder substituted, the stylesheet as a copy of its template. */
  lemma SkipSetupEffect(files: Table, j: Job)
    requires JobOk(j)
    ensures var r := SkipSetup(files, j);
      r.Success? ==>
        && r.value.Keys == files.Keys + {WorkingIndex(j), WorkingStyles(j)}
        && (forall p :: p in files ==> r.value[p] == files[p])
        && (WorkingIndex(j) !in files ==> r.value[WorkingIndex(j)] == Wrapper(files[IndexTemplate(j)], j))
        && (WorkingStyles(j) !in files ==> r.value[WorkingStyles(j)] == files[StylesTemplate(j)])
  {
    var wi, ws, st := WorkingIndex(j), WorkingStyles(j), StylesTemplate(j);
    assert wi != ws && wi != st by {
      JobPathsDistinct(j);
    }
    if IndexTemplate(j) in files && st in files {
      var withIndex := if wi in files then files else files[wi := Wrapper(files[IndexTemplate(j)], j)];
      assert withIndex.Keys == files.Keys + {wi};
      assert st in withIndex && withIndex[st] == files[st];
    }
  }

  /** Running setup twice leaves the files as running it once. */
  lemma SkipSetupIdempotent(files: Table, j: Job)
    requires JobOk(j)
    ensures var r := SkipSetup(files, j);
      r.Success? ==> SkipSetup(r.value, j) == r
  {
    SkipSetupEffect(files, j);
  }

  /** One entry of cleanup's filesToCheck: a working file, its template, and
      whether the template's placeholder is substituted before comparing. */
  datatype CheckEntry = CheckEntry(target: string, template: string, isTemplate: bool)

  function FilesToCheck(j: Job): seq<CheckEntry> {
    [CheckEntry(WorkingIndex(j), IndexTemplate(j), true),
     CheckEntry(WorkingStyles(j), StylesTemplate(j), false)]
  }

  /** The content a working file has while the user has not changed it. */
  function Pristine(templateContent: string, e: CheckEntry, j: Job): string {
    if e.isTemplate then Wrapper(templateContent, j) else templateContent
  }

  /** One pass of cleanup's forEach: delete the target when it and its
      template exist and the target is pristine. */
  function CheckOne(files: Table, e: CheckEntry, j: Job): Table {
    if e.target in files && e.template in files && files[e.target] == Pristine(files[e.template], e, j)
    then files - {e.target}
    else files
  }

  /** The forEach over the first |entries| entries. */
  function CheckAll(files: Table, entries: seq<CheckEntry>, j: Job): Table {
    if |entries| == 0 then files
    else CheckOne(CheckAll(files, entries[..|entries| - 1], j), entries[|entries| - 1], j)
  }

  /** cleanup's file handling (markpdf.js:306-342): nothing happens in the
      tool directory, otherwise the two entries are checked in turn. */
  function CompareCleanup(files: Table, j: Job): Table {
    if j.inputDir == j.toolDir then files else CheckAll(files, FilesToCheck(j), j)
  }

  /** Cleanup is the wrapper check followed by the stylesheet check. */
  lemma CompareCleanupSteps(files: Table, j: Job)
    requires j.inputDir != j.toolDir
    ensures CompareCleanup(files, j) == CheckOne(CheckOne(files, FilesToCheck(j)[0], j), FilesToCheck(j)[1], j)
  {
    var entries := FilesToCheck(j);
    assert entries[..1][..0] == [] && entries[..1][0] == entries[0];
    assert CheckAll(files, entries[..1], j) == CheckOne(files, entries[0], j);
  }

  /** Cleanup deletes the wrapper exactly when it and the index template
      exist and it equals the substituted template, deletes the stylesheet
      exactly when it and its template exist and it equals the raw
      template, and touches no other file; in the tool directory it deletes
      nothing. */
  lemma CompareCleanupEffect(files: Table, j: Job)
    requires JobOk(j)
    ensures var c := CompareCleanup(files, j);
      && (j.inputDir == j.toolDir ==> c == files)
      && c.Keys <= files.Keys
      && (forall p :: p in c ==> c[p] == files[p])
      && (forall p :: p in files && p != WorkingIndex(j) && p != WorkingStyles(j) ==> p in c)
      && (WorkingIndex(j) !in c <==>
            (|| WorkingIndex(j) !in files
             || (j.inputDir != j.toolDir && IndexTemplate(j) in files
                 && files[WorkingIndex(j)] == Wrapper(files[IndexTemplate(j)], j))))
      && (WorkingStyles(j) !in c <==>
            (|| WorkingStyles(j) !in files
             || (j.inputDir != j.toolDir && StylesTemplate(j) in files
                 && files[WorkingStyles(j)] == files[StylesTemplate(j)])))
  {
    if j.inputDir != j.toolDir {
      assert WorkingIndex(j) != WorkingStyles(j) && WorkingIndex(j) != StylesTemplate(j) by {
        JobPathsDistinct(j);
      }
      CompareCleanupSteps(files, j);
      var entries := FilesToCheck(j);
      CheckOneEffect(files, entries[0], j);
      CheckOneEffect(CheckOne(files, entries[0], j), entries[1], j);
    }
  }

  /** One check deletes its target exactly when the target and its template
      exist and the target is pristine, and changes nothing else. */
  lemma CheckOneEffect(files: Table, e: CheckEntry, j: Job)
    ensures var c := CheckOne(files, e, j);
      && c.Keys <= files.Keys && files.Keys - {e.target} <= c.Keys
      && (forall p :: p in c ==> c[p] == files[p])
      && (e.target !in c <==>
            (|| e.target !in files
             || (e.template in files && files[e.target] == Pristine(files[e.template], e, j))))
  {
  }

  /** Setup on a directory holding neither working file, followed by cleanup
      with no edit in between, gives back the original files (outside the
      tool directory). */
  lemma SetupCleanupRoundTrip(files: Table, j: Job)
    requires JobOk(j) && j.inputDir != j.toolDir
    requires WorkingIndex(j) !in files && WorkingStyles(j) !in files
    ensures var r := SkipSetup(files, j);
      r.Success? ==> CompareCleanup(r.value, j) == files
  {
    var r := SkipSetup(files, j);
    if r.Success? {
      SkipSetupEffect(files, j);
      CompareCleanupEffect(r.value, j);
      JobPathsDistinct(j);
      var c := CompareCleanup(r.value, j);
      assert c.Keys == files.Keys;
    }
  }

  /** The content of the metadata sidecar, when it exists. */
  function SidecarContent(files: Table, j: Job): Option<string> {
    if SidecarPath(j) in files then Some(files[SidecarPath(j)]) else None
  }

  /** generatePDF (markpdf.js:99-137): nothing happens when the Markdown
      file is missing; otherwise the browser prints the page at `url` into
      the output file, and on exit code 0 the post-processing chain runs. */
  function GenerateRun(j: Job, url: string, files: Table, chromium: Option<int>, o: Outcomes): Run {
    if j.inputFile !in files then Run([], Resolved)
    else
      var browser := [Invoke(Chromium, ChromiumArgs(j.outputFile, url))];
      if chromium == Some(0) then Then(browser, StripAndInject(j.outputFile, SidecarTags(SidecarContent(files, j)), o))
      else Run(browser, Rejected(ExitedWith(Chromium, chromium)))
  }

  /** A missing input returns without launching the browser; otherwise the
      browser runs first with exactly its four arguments, printing to the
      output file, and the run is rejected with its exit code unless that
      code is 0; then the post-processing chain follows it, starting with
      mutool, and the run settles exactly as that chain does. */
  lemma GenerateRunMeaning(j: Job, url: string, files: Table, chromium: Option<int>, o: Outcomes)
    ensures var r := GenerateRun(j, url, files, chromium, o);
      && (j.inputFile !in files ==> r == Run([], Resolved))
      && (j.inputFile in files ==>
            && |r.steps| >= 1
            && r.steps[0] == Invoke(Chromium, ["--headless", "--print-to-pdf=" + j.outputFile, "--no-pdf-header-footer", url])
            && (chromium != Some(0) ==> r == Run([r.steps[0]], Rejected(ExitedWith(Chromium, chromium))))
            && (chromium == Some(0) ==>
                  var post := StripAndInject(j.outputFile, SidecarTags(SidecarContent(files, j)), o);
                  && r.steps[1..] == post.steps && r.settlement == post.settlement
                  && Tools(r.steps) == [Chromium] + Tools(post.steps)
                  && r.steps[1] == Invoke(Mutool, MutoolArgs(j.outputFile, TempPath(j.outputFile)))))
  {
    if j.inputFile in files && chromium == Some(0) {
      var browser := [Invoke(Chromium, ChromiumArgs(j.outputFile, url))];
      var post := StripAndInject(j.outputFile, SidecarTags(SidecarContent(files, j)), o);
      CleanedCopyHandling(j.outputFile, SidecarTags(SidecarContent(files, j)), o);
      ToolsConcat(browser, post.steps);
      assert Tools(browser) == [Chromium] by {
        assert Tools(browser[1..]) == [];
      }
    }
  }

  /** The object of markpdf.js (its class is also named MarkPDFChromium):
      the job named by the constructor, and the markserv state that
      startMarkserv fills in and cleanup uses. */
  class Converter {
    const job: Job
    var port: nat
    var livereloadPort: Option<nat>
    var markservUrl: string
    /** The arguments markserv was spawned with; None until it is spawned. */
    var markservProcess: Option<seq<string>>
    var markservKilled: bool

    predicate Valid() {
      JobOk(job)
    }

    /** The constructor (markpdf.js:8-18), given the input already resolved
        to an absolute path and the directory holding the script. */
    constructor (inputFile: string, toolDir: string)
      requires IsResolved(inputFile) && IsDirectory(toolDir)
      ensures Valid() && job == NewJob(inputFile, toolDir)
      ensures port == DefaultPort && livereloadPort == None
      ensures markservUrl == ServerUrl(DefaultPort, job.htmlFile)
      ensures markservProcess == None && !markservKilled
    {
      var j := NewJob(inputFile, toolDir);
      NewJobNames(inputFile, toolDir);
      job := j;
      port := DefaultPort;
      livereloadPort := None;
      markservUrl := ServerUrl(DefaultPort, j.htmlFile);
      markservProcess := None;
      markservKilled := false;
    }

    /** setupWorkingDirectory: the file table afterwards is the one SkipSetup
        gives; a missing template throws before anything is written. */
    method SetupWorkingDirectory(fs: FileSystem) returns (err: Option<Failure>)
      requires Valid()
      modifies fs
      ensures SkipSetup(old(fs.files), job).Failure? ==>
                err == Some(SkipSetup(old(fs.files), job).error) && fs.files == old(fs.files)
      ensures SkipSetup(old(fs.files), job).Success? ==>
                err == None && fs.files == SkipSetup(old(fs.files), job).value
    {
      var indexTemplate := IndexTemplate(job);
      var stylesTemplate := StylesTemplate(job);
      var workingIndex := WorkingIndex(job);
      var workingStyles := WorkingStyles(job);
      if indexTemplate !in fs.files {
        return Some(TemplateNotFound(indexTemplate));
      }
      if stylesTemplate !in fs.files {
        return Some(TemplateNotFound(stylesTemplate));
      }
      if workingIndex !in fs.files {
        var indexContent := fs.Read(indexTemplate);
        indexContent := Text.ReplaceFirst(indexContent, Placeholder, Basename(job.inputFile));
        fs.Write(workingIndex, indexContent);
      }
      if workingStyles !in fs.files {
        fs.Copy(stylesTemplate, workingStyles);
      }
      err := None;
    }

    /** startMarkserv: the first free ports from 8000 and from 35729, the URL
        on the first, markserv spawned on both, then the readiness poll. A
        failing probe rejects with the fields set so far. */
    method StartMarkserv(busy: set<int>, connects: nat -> bool) returns (err: Option<Failure>)
      requires Valid()
      modifies this
      ensures markservKilled == old(markservKilled)
      ensures AllBusy(busy, DefaultPort) ==>
                err == Some(PortOutOfRange(MaxPort + 1)) && port == old(port)
                && livereloadPort == old(livereloadPort) && markservUrl == old(markservUrl)
                && markservProcess == old(markservProcess)
      ensures !AllBusy(busy, DefaultPort) ==> FirstFree(busy, DefaultPort, port)
      ensures !AllBusy(busy, DefaultPort) && AllBusy(busy, LivereloadBasePort) ==>
                err == Some(PortOutOfRange(MaxPort + 1)) && livereloadPort == old(livereloadPort)
                && markservUrl == old(markservUrl) && markservProcess == old(markservProcess)
      ensures !AllBusy(busy, DefaultPort) && !AllBusy(busy, LivereloadBasePort) ==>
                && livereloadPort.Some? && FirstFree(busy, LivereloadBasePort, livereloadPort.value)
                && markservUrl == ServerUrl(port, job.htmlFile)
                && markservProcess == Some(MarkservArgs(port, livereloadPort.value, true))
                && (err == None <==> exists i :: 0 <= i < ReadyAttempts && connects(i))
                && (err != None ==> err == Some(MarkservNotReady(ReadyAttempts)))
    {
      var first := FindAvailablePort(busy, DefaultPort);
      if first.Failure? {
        return Some(first.error);
      }
      port := first.value;
      var second := FindAvailablePort(busy, LivereloadBasePort);
      if second.Failure? {
        return Some(second.error);
      }
      livereloadPort := Some(second.value);
      markservUrl := ServerUrl(port, job.htmlFile);
      markservProcess := Some(MarkservArgs(port, second.value, true));
      var attempts, pauses;
      err, attempts, pauses := WaitForMarkserv(connects, ReadyAttempts);
    }

    /** cleanup: markserv is killed if it was spawned, and the file table
        afterwards is the one CompareCleanup gives. */
    method Cleanup(fs: FileSystem)
      requires Valid()
      modifies this, fs
      ensures markservKilled == (old(markservKilled) || markservProcess.Some?)
      ensures port == old(port) && livereloadPort == old(livereloadPort)
      ensures markservUrl == old(markservUrl) && markservProcess == old(markservProcess)
      ensures fs.files == CompareCleanup(old(fs.files), job)
    {
      if markservProcess.Some? {
        markservKilled := true;
      }
      if job.inputDir != job.toolDir {
        var entries := FilesToCheck(job);
        for k := 0 to |entries|
          invariant fs.files == CheckAll(old(fs.files), entries[..k], job)
          modifies fs
        {
          var e := entries[k];
          if e.target in fs.files && e.template in fs.files {
            var targetContent := fs.Read(e.target);
            var templateContent := fs.Read(e.template);
            if e.isTemplate {
              templateContent := Text.ReplaceFirst(templateContent, Placeholder, Basename(job.inputFile));
            }
            if targetContent == templateContent {
              fs.Unlink(e.target);
            }
          }
          assert entries[..k + 1][..k] == entries[..k];
        }
        assert entries[..|entries|] == entries;
      }
    }

    /** generatePDF: the PDF path it builds is the output file, and the run
        is the one GenerateRun gives; the sidecar's tags are collected by
        injectMetadata's loop. */
    method GeneratePdf(fs: FileSystem, chromium: Option<int>, o: Outcomes) returns (r: Run)
      requires Valid()
      ensures r == GenerateRun(job, markservUrl, fs.files, chromium, o)
    {
      if job.inputFile !in fs.files {
        return Run([], Resolved);
      }
      var pdfOutputPath := Join(job.inputDir, job.inputBasename + PdfExt);
      var browser := [Invoke(Chromium, ChromiumArgs(pdfOutputPath, markservUrl))];
      if chromium == Some(0) {
        var tags := [];
        var metadataFile := SidecarPath(job);
        if metadataFile in fs.files {
          var content := fs.Read(metadataFile);
          tags := Metadata.CollectMetadataArgs(content);
        }
        r := Then(browser, StripAndInject(pdfOutputPath, tags, o));
      } else {
        r := Run(browser, Rejected(ExitedWith(Chromium, chromium)));
      }
    }
  }
}
