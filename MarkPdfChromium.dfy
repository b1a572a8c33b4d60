/** markpdf-chromium.js: the converter that treats the working files as
    temporary. Setup always writes the HTML wrapper and the stylesheet,
    cleanup always deletes them, and a printed PDF is not post-processed. */
module MarkPdfChromium {
  import opened Wrappers
  import opened Errors
  import opened Paths
  import opened Naming
  import opened Files
  import opened Markserv
  import opened Processes
  import Text

  /** setupWorkingDirectory (markpdf-chromium.js:32-54) on a file table:
      both templates must exist, the index template checked first; then the
      wrapper is written and the stylesheet copied, whatever was there. */
  function OverwriteSetup(files: Table, j: Job): Result<Table, Failure> {
    if IndexTemplate(j) !in files then Failure(TemplateNotFound(IndexTemplate(j)))
    else if StylesTemplate(j) !in files then Failure(TemplateNotFound(StylesTemplate(j)))
    else
      var withIndex := files[WorkingIndex(j) := Wrapper(files[IndexTemplate(j)], j)];
      Success(withIndex[WorkingStyles(j) := withIndex[StylesTemplate(j)]])
  }

  /** Setup fails exactly when a template is missing, naming the index
      template when both are. */
  lemma OverwriteSetupChecks(files: Table, j: Job)
    ensures var r := OverwriteSetup(files, j);
      && (r.Failure? <==> IndexTemplate(j) !in files || StylesTemplate(j) !in files)
      && (IndexTemplate(j) !in files ==> r == Failure(TemplateNotFound(IndexTemplate(j))))
      && ((IndexTemplate(j) in files && StylesTemplate(j) !in files)
            ==> r == Failure(TemplateNotFound(StylesTemplate(j))))
  {
  }

  /** A successful setup leaves the wrapper holding the index template with
      its placeholder substituted and the stylesheet a copy of its template,
      whether or not they existed, and changes no other file. */
  lemma OverwriteSetupEffect(files: Table, j: Job)
    requires JobOk(j)
    ensures var r := OverwriteSetup(files, j);
      r.Success? ==>
        && r.value.Keys == files.Keys + {WorkingIndex(j), WorkingStyles(j)}
        && r.value[WorkingIndex(j)] == Wrapper(files[IndexTemplate(j)], j)
        && r.value[WorkingStyles(j)] == files[StylesTemplate(j)]
        && (forall p :: p in files && p != WorkingIndex(j) && p != WorkingStyles(j) ==> r.value[p] == files[p])
  {
    var wi, ws, st := WorkingIndex(j), WorkingStyles(j), StylesTemplate(j);
    assert wi != ws && wi != st by {
      JobPathsDistinct(j);
    }
    if IndexTemplate(j) in files && st in files {
      var withIndex := files[wi := Wrapper(files[IndexTemplate(j)], j)];
      assert st in withIndex && withIndex[st] == files[st];
    }
  }

  /** Running setup twice leaves the files as running it once, unless the
      wrapper is the index template itself (an input named index.md in the
      tool directory), which the first run overwrites. */
  lemma OverwriteSetupIdempotent(files: Table, j: Job)
    requires JobOk(j) && WorkingIndex(j) != IndexTemplate(j)
    ensures var r := OverwriteSetup(files, j);
      r.Success? ==> OverwriteSetup(r.value, j) == r
  {
    var r := OverwriteSetup(files, j);
    if r.Success? {
      var it, wi, ws, st := IndexTemplate(j), WorkingIndex(j), WorkingStyles(j), StylesTemplate(j);
      assert it != ws && wi != ws && wi != st by {
        JobPathsDistinct(j);
      }
      var w := Wrapper(files[it], j);
      WriteThenCopyTwice(files, wi, w, st, ws);
      assert r.value[it] == files[it];
    }
  }

  /** Writing `w` to `target` and then copying `source` to `copy` a second
      time changes nothing, when the write does not touch `source`. */
  lemma WriteThenCopyTwice(files: Table, target: string, w: string, source: string, copy: string)
    requires source in files && target != source && target != copy
    ensures var once := files[target := w][copy := files[target := w][source]];
      once[target := w][copy := once[target := w][source]] == once
  {
    var once := files[target := w][copy := files[target := w][source]];
    assert once[target] == w;
  }

  /** The forEach over tempFiles, deleting each that exists. */
  function RemoveAll(files: Table, paths: seq<string>): Table {
    if |paths| == 0 then files
    else
      var before := RemoveAll(files, paths[..|paths| - 1]);
      before - {paths[|paths| - 1]}
  }

  /** The two working files cleanup deletes. */
  function TempFiles(j: Job): seq<string> {
    [WorkingIndex(j), WorkingStyles(j)]
  }

  /** cleanup's file handling (markpdf-chromium.js:169-185). */
  function AlwaysCleanup(files: Table, j: Job): Table {
    if j.inputDir == j.toolDir then files else RemoveAll(files, TempFiles(j))
  }

  /** Outside the tool directory cleanup deletes both working files,
      whatever they hold, and nothing else; in the tool directory it deletes
      nothing. */
  lemma AlwaysCleanupEffect(files: Table, j: Job)
    ensures j.inputDir == j.toolDir ==> AlwaysCleanup(files, j) == files
    ensures j.inputDir != j.toolDir ==> AlwaysCleanup(files, j) == files - {WorkingIndex(j), WorkingStyles(j)}
  {
    var paths := TempFiles(j);
    assert paths[..1][..0] == [] && paths[..1][0] == paths[0];
    assert RemoveAll(files, paths[..1]) == files - {paths[0]};
  }

  /** Setup followed by cleanup, outside the tool directory, leaves neither
      working file, even one the user had before, and restores every other
      file. */
  lemma SetupCleanupRoundTrip(files: Table, j: Job)
    requires JobOk(j) && j.inputDir != j.toolDir
    ensures var r := OverwriteSetup(files, j);
      r.Success? ==> AlwaysCleanup(r.value, j) == files - {WorkingIndex(j), WorkingStyles(j)}
  {
    var r := OverwriteSetup(files, j);
    if r.Success? {
      OverwriteSetupEffect(files, j);
      AlwaysCleanupEffect(r.value, j);
      var c := AlwaysCleanup(r.value, j);
      assert c.Keys == files.Keys - {WorkingIndex(j), WorkingStyles(j)};
    }
  }

  /** generatePDF (markpdf-chromium.js:93-131): nothing happens when the
      Markdown file is missing; otherwise the browser prints the page at
      `url` into the output file and its exit code settles the run. */
  function GenerateRun(j: Job, url: string, files: Table, chromium: Option<int>): Run {
    if j.inputFile !in files then Run([], Resolved)
    else
      var browser := [Invoke(Chromium, ChromiumArgs(j.outputFile, url))];
      if chromium == Some(0) then Run(browser, Resolved)
      else Run(browser, Rejected(ExitedWith(Chromium, chromium)))
  }

  /** A missing input returns without launching the browser; otherwise the
      browser is the only program run, with exactly its four arguments
      printing to the output file, and the run resolves exactly on exit
      code 0 and is otherwise rejected with the code. */
  lemma GenerateRunMeaning(j: Job, url: string, files: Table, chromium: Option<int>)
    ensures var r := GenerateRun(j, url, files, chromium);
      && (j.inputFile !in files ==> r == Run([], Resolved))
      && (j.inputFile in files ==>
            && r.steps == [Invoke(Chromium, ["--headless", "--print-to-pdf=" + j.outputFile, "--no-pdf-header-footer", url])]
            && Tools(r.steps) == [Chromium]
            && (r.settlement == Resolved <==> chromium == Some(0))
            && (chromium != Some(0) ==> r.settlement == Rejected(ExitedWith(Chromium, chromium))))
  {
    if j.inputFile in files {
      var r := GenerateRun(j, url, files, chromium);
      assert Tools(r.steps[1..]) == [];
    }
  }

  /** The object of markpdf-chromium.js (the class MarkPDFChromium): the job
      named by the constructor, and the markserv state that startMarkserv
      fills in and cleanup uses. */
  class Converter {
    const job: Job
    var port: nat
    var livereloadPort: Option<nat>
    var markservUrl: string
    /** The arguments markserv was spawned with; None until it is spawned. */
    var markservProcess: Option<seq<string>>
    var markservKilled: bool

    predicate Valid() {
      JobOk(job)
    }

    /** The constructor (markpdf-chromium.js:8-18), given the input already
        resolved to an absolute path and the directory holding the script. */
    constructor (inputFile: string, toolDir: string)
      requires IsResolved(inputFile) && IsDirectory(toolDir)
      ensures Valid() && job == NewJob(inputFile, toolDir)
      ensures port == DefaultPort && livereloadPort == None
      ensures markservUrl == ServerUrl(DefaultPort, job.htmlFile)
      ensures markservProcess == None && !markservKilled
    {
      var j := NewJob(inputFile, toolDir);
      NewJobNames(inputFile, toolDir);
      job := j;
      port := DefaultPort;
      livereloadPort := None;
      markservUrl := ServerUrl(DefaultPort, j.htmlFile);
      markservProcess := None;
      markservKilled := false;
    }

    /** setupWorkingDirectory: the file table afterwards is the one
        OverwriteSetup gives; a missing template throws before anything is
        written. */
    method SetupWorkingDirectory(fs: FileSystem) returns (err: Option<Failure>)
      requires Valid()
      modifies fs
      ensures OverwriteSetup(old(fs.files), job).Failure? ==>
                err == Some(OverwriteSetup(old(fs.files), job).error) && fs.files == old(fs.files)
      ensures OverwriteSetup(old(fs.files), job).Success? ==>
                err == None && fs.files == OverwriteSetup(old(fs.files), job).value
    {
      var indexTemplate := IndexTemplate(job);
      var stylesTemplate := StylesTemplate(job);
      var workingIndex := WorkingIndex(job);
      var workingStyles := WorkingStyles(job);
      if indexTemplate !in fs.files {
        return Some(TemplateNotFound(indexTemplate));
      }
      if stylesTemplate !in fs.files {
        return Some(TemplateNotFound(stylesTemplate));
      }
      var indexContent := fs.Read(indexTemplate);
      indexContent := Text.ReplaceFirst(indexContent, Placeholder, Basename(job.inputFile));
      fs.Write(workingIndex, indexContent);
      fs.Copy(stylesTemplate, workingStyles);
      err := None;
    }

    /** startMarkserv (markpdf-chromium.js:56-70): the first free ports from
        8000 and from 35729, the URL on the first, markserv spawned on both
        (without `--no-browser`, unlike markpdf.js), then the readiness
        poll. A failing probe rejects with the fields set so far. */
    method StartMarkserv(busy: set<int>, connects: nat -> bool) returns (err: Option<Failure>)
      requires Valid()
      modifies this
      ensures markservKilled == old(markservKilled)
      ensures AllBusy(busy, DefaultPort) ==>
                err == Some(PortOutOfRange(MaxPort + 1)) && port == old(port)
                && livereloadPort == old(livereloadPort) && markservUrl == old(markservUrl)
                && markservProcess == old(markservProcess)
      ensures !AllBusy(busy, DefaultPort) ==> FirstFree(busy, DefaultPort, port)
      ensures !AllBusy(busy, DefaultPort) && AllBusy(busy, LivereloadBasePort) ==>
                err == Some(PortOutOfRange(MaxPort + 1)) && livereloadPort == old(livereloadPort)
                && markservUrl == old(markservUrl) && markservProcess == old(markservProcess)
      ensures !AllBusy(busy, DefaultPort) && !AllBusy(busy, LivereloadBasePort) ==>
                && livereloadPort.Some? && FirstFree(busy, LivereloadBasePort, livereloadPort.value)
                && markservUrl == ServerUrl(port, job.htmlFile)
                && markservProcess == Some(MarkservArgs(port, livereloadPort.value, false))
                && (err == None <==> exists i :: 0 <= i < ReadyAttempts && connects(i))
                && (err != None ==> err == Some(MarkservNotReady(ReadyAttempts)))
    {
      var first := FindAvailablePort(busy, DefaultPort);
      if first.Failure? {
        return Some(first.error);
      }
      port := first.value;
      var second := FindAvailablePort(busy, LivereloadBasePort);
      if second.Failure? {
        return Some(second.error);
      }
      livereloadPort := Some(second.value);
      markservUrl := ServerUrl(port, job.htmlFile);
      markservProcess := Some(MarkservArgs(port, second.value, false));
      var attempts, pauses;
      err, attempts, pauses := WaitForMarkserv(connects, ReadyAttempts);
    }

    /** cleanup: markserv is killed if it was spawned, and the file table
        afterwards is the one AlwaysCleanup gives. */
    method Cleanup(fs: FileSystem)
      requires Valid()
      modifies this, fs
      ensures markservKilled == (old(markservKilled) || markservProcess.Some?)
      ensures port == old(port) && livereloadPort == old(livereloadPort)
      ensures markservUrl == old(markservUrl) && markservProcess == old(markservProcess)
      ensures fs.files == AlwaysCleanup(old(fs.files), job)
    {
      if markservProcess.Some? {
        markservKilled := true;
      }
      if job.inputDir != job.toolDir {
        var tempFiles := TempFiles(job);
        for k := 0 to |tempFiles|
          invariant fs.files == RemoveAll(old(fs.files), tempFiles[..k])
          modifies fs
        {
          if tempFiles[k] in fs.files {
            fs.Unlink(tempFiles[k]);
          }
          assert tempFiles[..k + 1][..k] == tempFiles[..k];
        }
        assert tempFiles[..|tempFiles|] == tempFiles;
      }
    }

    /** generatePDF: the PDF path it builds is the output file, and the run
        is the one GenerateRun gives. */
    method GeneratePdf(fs: FileSystem, chromium: Option<int>) returns (r: Run)
      requires Valid()
      ensures r == GenerateRun(job, markservUrl, fs.files, chromium)
    {
      if job.inputFile !in fs.files {
        return Run([], Resolved);
      }
      var pdfOutputPath := Join(job.inputDir, job.inputBasename + PdfExt);
      var browser := [Invoke(Chromium, ChromiumArgs(pdfOutputPath, markservUrl))];
      if chromium == Some(0) {
        r := Run(browser, Resolved);
      } else {
        r := Run(browser, Rejected(ExitedWith(Chromium, chromium)));
      }
    }
  }
}
