# markpdf in Dafny

markpdf turns a Markdown file into a PDF. It writes an HTML wrapper
(`<base>.html`, made from the tool's `index.html` template) and a stylesheet
(`styles.css`) next to the Markdown file. It serves that directory with
markserv on the first free port from 8000, with livereload on the first free
port from 35729, and waits until the server accepts connections. Headless
Chromium then prints the page to `<base>.pdf`. Cleanup removes the working
files.

The repository has two variants of the script:

- `markpdf.js` keeps the user's files. Setup creates a working file only
  when it is missing. Cleanup deletes a working file only while it still
  equals its template. The printed PDF goes through a post-processing
  chain:
  - `mutool clean` writes a cleaned copy that replaces the PDF;
  - `mat2` strips the PDF in place when mutool cannot;
  - `exiftool` writes the `Key: value` tags of a `<base>-metadata.md`
    sidecar.
- `markpdf-chromium.js` treats the working files as temporary. Setup always
  overwrites them, cleanup always deletes them, and nothing is
  post-processed.

The model replaces every external effect with an input or a value:

- The file system is a table from path to content. It is the class
  `Files.FileSystem`, whose methods are `fs.readFileSync`, `writeFileSync`,
  `copyFileSync` and `unlinkSync`.
- Ports where `server.listen` fails are a set.
- The outcome of each connection attempt is a function of the attempt
  number.
- Each spawned program has an enumerated outcome (`Processes.Outcome`).
- A run of the tool is a trace of steps together with how its promise
  settles (`Processes.Run`).

Modules, following the source:

- `Text`: the JavaScript string operations the scripts use.
  - `trim` uses the full ECMAScript white-space and line-terminator set,
    because that is what the code calls.
  - `split` and `join` take a one-character separator.
  - `replace` with a string pattern replaces only the first occurrence.
- `Paths`: `path.dirname`, `path.basename` (with its extension argument)
  and `path.join`, on resolved POSIX paths.
- `Naming`: the constructor's name derivation, as the `Job` record, and the
  working-file, template and sidecar paths built from it.
- `Files`: the file table.
- `Markserv`: the port probe and the readiness poll, both as loops, and the
  server URL.
- `Metadata`: the sidecar parser and its `forEach`/`push` loop.
- `Processes`, `PostProcess`: program outcomes, traces, and the
  mutool → mat2 → exiftool chain.
- `MarkPdf`, `MarkPdfChromium`: one module per script. Each holds the setup
  and cleanup policy as functions on the file table, with their lemmas, and
  a class `Converter` whose methods change the file system and the object's
  fields. Both scripts name their class `MarkPDFChromium`.

## Model

| member | source | states |
|---|---|---|
| Text.TrimStart | markpdf.js:234 | the result is the suffix of the input left after a prefix made only of trimmable characters, and it does not start with one |
| Text.TrimEnd | markpdf.js:234 | the result is the prefix of the input left before a suffix made only of trimmable characters, and it does not end with one |
| Text.TrimMeaning | markpdf.js:234 | `trim` keeps the infix of the input that begins after its leading trimmable characters, and every character outside that infix is trimmable |
| Text.TrimEdges | markpdf.js:234 | the text `trim` keeps is empty or neither starts nor ends with a trimmable character |
| Text.Split | markpdf.js:231-232 | `split` gives at least one piece, no piece holds the separator, and joining the pieces with the separator gives back the string |
| Text.SplitJoin | markpdf.js:231-234 | splitting the join of separator-free pieces gives back the pieces (round trip) |
| Text.SplitIsUnique | markpdf.js:231-232 | two lists of separator-free pieces with the same join are equal |
| Text.SplitAtFirst | markpdf.js:232 | the first piece of a split is the text before the first separator, and the other pieces join back to the text after it |
| Text.SplitWithoutSeparator | markpdf.js:231-232 | a string without the separator splits into itself alone |
| Text.IndexOf | markpdf.js:49 | the index found is an occurrence with no earlier one; None means there is no occurrence |
| Text.ReplaceFirst | markpdf.js:49 | only the first occurrence of the pattern is replaced; a string without the pattern is unchanged |
| Paths.StripExt | markpdf.js:11 | a name longer than the extension and ending with it loses exactly that extension; any other name is kept whole; a non-empty name never becomes empty |
| Paths.JoinSplits | markpdf.js:12 | dirname and basename of `join(dir, name)` give back `dir` and `name` |
| Paths.JoinInjective | markpdf.js:12 | two joins are equal exactly when their directories and names are |
| Paths.ResolvedSplits | markpdf.js:9-10 | a resolved path (absolute, with no empty segment and no trailing slash) has a directory as its dirname and a segment as its basename, and joining them gives the path back |
| Naming.NewJobNames | markpdf.js:9-13 | the directory and file name recombine to the input; the basename is the file name without a trailing `.md`, or the whole name when it is `.md` itself or lacks that extension; the output is `<dir>/<base>.pdf` and the wrapper `<base>.html` |
| Naming.JobNameFacts | markpdf.js:12-13 | the PDF and wrapper names are segments, differ from each other and from `styles.css` |
| Naming.JobPathsDistinct | markpdf.js:33-36 | the working files, the templates and the output never coincide (the output differs from both working files and both templates), except that a working file is its template in the tool directory (the wrapper only for `index.md`) |
| Naming.DerivedPathsAvoidInput | markpdf.js:9-13 | for a `.md` input the output, both working files and the sidecar all differ from the input |
| Files.FileSystem.Read | markpdf.js:48 | gives the content stored at the path |
| Files.FileSystem.Write | markpdf.js:50 | the path holds the new content and no other entry changes |
| Files.FileSystem.Copy | markpdf.js:57 | the target holds the source's content and no other entry changes |
| Files.FileSystem.Unlink | markpdf.js:331 | the path is removed and no other entry changes |
| Markserv.FindAvailablePort | markpdf-chromium.js:20-30 | the answer is the least port from the start that is not busy; past 65535 the probe rejects with a range error, and then every port from the start is busy |
| Markserv.DecimalString | markpdf.js:70 | `toString` of a port is a non-empty string of decimal digits |
| Markserv.DecimalStringValue | markpdf.js:70 | those digits read in base 10 give the port back, with no leading zero, and a single digit exactly below 10 |
| Markserv.MarkservArgsBrowserFlag | markpdf-chromium.js:64 | the markserv argument list holds `--no-browser` exactly when the flag is set (markpdf.js:70 sets it, markpdf-chromium.js:64 does not), with 7 or 6 arguments, the port third and the livereload port last |
| Markserv.WaitForMarkserv | markpdf.js:78-97 | at most `maxAttempts` attempts; it returns at the first success; it fails only after `maxAttempts` failed attempts; it pauses after every failed attempt except the last; with `maxAttempts <= 0` it returns without connecting |
| Metadata.LineArgMeaning | markpdf.js:231-236 | a line without `:` gives nothing; otherwise the key is the untrimmed text before the first `:` (empty: nothing) and the value is everything after it, later colons kept, trimmed |
| Metadata.LineArgAtFirstColon | markpdf.js:232-235 | the argument of a line whose first `:` is at a given index |
| Metadata.MetadataArgsConcat | markpdf.js:231-237 | the arguments of consecutive blocks of lines are those of each block, in line order |
| Metadata.NoMetadataArgs | markpdf.js:231-241 | no argument at all exactly when no line qualifies |
| Metadata.CollectMetadataArgs | markpdf.js:229-237 | the loop pushes exactly the argument of every qualifying line, in order |
| Metadata.SingleLineSidecar | markpdf.js:229-237 | a sidecar holding one `Key: value` line gives exactly `-Key=<value trimmed>` |
| PostProcess.SidecarTagsMeaning | markpdf.js:222-242 | tags are collected exactly when the sidecar exists and one of its lines qualifies |
| PostProcess.InjectMetadataMeaning | markpdf.js:239-266 | without tags nothing runs and injection resolves; otherwise exiftool runs once on the tags followed by `-overwrite_original` and the PDF; injection resolves exactly when exiftool is missing or exits 0, stays unsettled exactly on a null code, and rejects otherwise |
| PostProcess.FallbackTools | markpdf.js:192-218 | mat2 runs, then exiftool exactly when mat2 is missing or exits with any code and there are tags |
| PostProcess.StripAndInjectTools | markpdf.js:139-218 | mutool always runs; mat2 runs exactly when mutool is missing, exits other than 0 (or with a null code) or the rename fails; exiftool runs exactly when injection is reached and there are tags |
| PostProcess.StripAndInjectSettlement | markpdf.js:139-266 | a non-ENOENT spawn error of mutool or mat2 rejects with it; a null code from mat2 leaves the run unsettled; a run reaching injection settles as injection does; with no program installed the run resolves |
| PostProcess.CleanedCopyHandling | markpdf.js:144-186 | mutool is spawned on the PDF and its cleaned copy; after a failed mutool the leftover copy is deleted before mat2 starts; the only file ever deleted is the cleaned copy and the only rename moves it onto the PDF |
| PostProcess.TempPathMeaning | markpdf.js:144 | for a path ending in `.pdf` the cleaned copy's path is 8 characters longer, so never the PDF; when `.pdf` occurs nowhere earlier it is the path with its extension replaced by `_cleaned.pdf` |
| MarkPdf.SkipSetupChecks | markpdf.js:38-43 | setup fails exactly when a template is missing, and reports the index template first |
| MarkPdf.SkipSetupEffect | markpdf.js:45-59 | setup never changes an existing file; it adds exactly the missing working files, the wrapper with the placeholder substituted and the stylesheet copied |
| MarkPdf.SkipSetupIdempotent | markpdf.js:45-59 | running setup twice equals running it once |
| MarkPdf.CheckOneEffect | markpdf.js:320-336 | one check deletes its target exactly when the target and its template exist and the target equals the (substituted) template, and changes nothing else |
| MarkPdf.CompareCleanupEffect | markpdf.js:306-342 | cleanup deletes the wrapper exactly when it and the index template exist and it equals the substituted template; likewise the stylesheet against the raw template; customised files are kept, no other file is touched, and nothing is deleted in the tool directory |
| MarkPdf.SetupCleanupRoundTrip | markpdf.js:45-336 | setup on a directory with neither working file, then cleanup with no edits, restores the original files |
| MarkPdf.GenerateRunMeaning | markpdf.js:99-137 | a missing input launches nothing; otherwise Chromium runs first with exactly its four arguments, printing to the output file; a code other than 0 rejects with it; on exit 0 the remaining steps are the post-processing chain's, starting with mutool, and the run settles exactly as that chain does |
| MarkPdf.Converter.constructor | markpdf.js:8-18 | the object holds the derived job, port 8000, the URL on that port, and no server |
| MarkPdf.Converter.SetupWorkingDirectory | markpdf.js:32-60 | the file table afterwards is the skip-policy setup; a missing template throws before any write |
| MarkPdf.Converter.StartMarkserv | markpdf.js:62-76 | the port and livereload port are the first free ones from 8000 and 35729; the URL uses the port and markserv is spawned on both with `--no-browser`; success exactly when one of 10 attempts connects; a failing probe rejects and leaves the later fields unchanged |
| MarkPdf.Converter.Cleanup | markpdf.js:301-343 | markserv is killed exactly when it was spawned; the file table afterwards is the compare-to-template cleanup |
| MarkPdf.Converter.GeneratePdf | markpdf.js:99-137 | the method (which joins the PDF path and parses the sidecar with the metadata loop) produces exactly the run `GenerateRun` specifies for the job, the current URL and the files, whose meaning `GenerateRunMeaning` states |
| MarkPdfChromium.OverwriteSetupChecks | markpdf-chromium.js:38-43 | setup fails exactly when a template is missing, and reports the index template first |
| MarkPdfChromium.OverwriteSetupEffect | markpdf-chromium.js:45-49 | after setup the wrapper is the substituted template and the stylesheet a copy, whatever was there; no other file changes |
| MarkPdfChromium.OverwriteSetupIdempotent | markpdf-chromium.js:45-49 | running setup twice equals running it once, unless the wrapper is the index template itself |
| MarkPdfChromium.AlwaysCleanupEffect | markpdf-chromium.js:169-185 | outside the tool directory cleanup deletes both working files whatever they hold and nothing else; in the tool directory it deletes nothing |
| MarkPdfChromium.SetupCleanupRoundTrip | markpdf-chromium.js:45-180 | setup then cleanup leaves neither working file, even one the user had before, and restores every other file |
| MarkPdfChromium.GenerateRunMeaning | markpdf-chromium.js:96-129 | a missing input launches nothing; otherwise Chromium is the only program, with exactly its four arguments printing to the output file; the run resolves exactly on exit 0 and otherwise rejects with the code |
| MarkPdfChromium.Converter.constructor | markpdf-chromium.js:8-18 | the object holds the derived job, port 8000, the URL on that port, and no server |
| MarkPdfChromium.Converter.SetupWorkingDirectory | markpdf-chromium.js:32-54 | the file table afterwards is the overwrite-policy setup; a missing template throws before any write |
| MarkPdfChromium.Converter.StartMarkserv | markpdf-chromium.js:56-70 | the first free ports from 8000 and 35729, the URL on the first, markserv spawned on both without `--no-browser` (six arguments), success exactly when one of 10 attempts connects, and a failing probe leaves the later fields unchanged |
| MarkPdfChromium.Converter.Cleanup | markpdf-chromium.js:164-186 | markserv is killed exactly when it was spawned; the file table afterwards is the always-delete cleanup |
| MarkPdfChromium.Converter.GeneratePdf | markpdf-chromium.js:93-131 | the method produces exactly the run `GenerateRun` specifies, the browser run alone, whose meaning `GenerateRunMeaning` states |

## Left out

- `path.resolve` and `__dirname` are not modelled. The constructor takes an
  input path already resolved to an absolute path, and the tool directory
  as a parameter.
- `Markserv.FindAvailablePort` requires a start port of at least 1. Port 0,
  which asks the system for any free port, is not modelled; the scripts
  only probe from 8000 and 35729.
- The busy-port set stays fixed during a probe. Both probes see the same
  set, because the probing servers are closed before the next listen.
  Races with other processes are not modelled.
- Node can emit `close` after `error` for a program that failed to spawn,
  which would run a handler twice. The model gives each program one
  outcome.
- Chromium has no `error` listener, so a failed spawn crashes the process.
  That case is not modelled; Chromium's outcome is an exit code or a null
  code.
- What the programs write (the PDF, the cleaned copy) is not applied to the
  file table. Neither are the rename of the cleaned copy and the deletion
  of a leftover copy; they appear only as steps of the trace. Whether a
  cleaned copy is left behind is an input (`tempLeft`).
- The sidecar is read before the chain starts rather than at injection.
  Nothing in the chain writes the sidecar, so the tags are the same.
- Markserv's own failures and output are not modelled.
- The markserv process object is modelled by the arguments it was spawned
  with. `kill()` is modelled as a flag.
- The readiness poll's one-second delay is counted as pauses, not timed.
- Not modelled: the chokidar watcher and the re-render on change
  (`startWatching`), `run()`, the SIGINT/SIGTERM handlers, the global
  instance, process exit codes and all console output.
- `$` patterns in the replacement of `String.prototype.replace` are not
  interpreted; the file name is inserted literally.
- Files are strings. UTF-8 decoding is not modelled.
- Paths.IsResolved: does not exclude `.` and `..` segments, which path.resolve
  never leaves. The model's Join treats them as ordinary names and does not
  normalise them, so such inputs are outside what the scripts receive.
- MarkPdfChromium.OverwriteSetupIdempotent: requires that the wrapper is not
  the index template. For an input named `index.md` in the tool directory,
  the first setup overwrites the template with the wrapper.
- An earlier `.pdf` in the PDF's path is not treated specially. The
  cleaned copy goes wherever the first `.pdf` of the whole path leads, as
  in the source. A directory name containing `.pdf` is one case:
  `/a.pdf/r.pdf` gives `/a_cleaned.pdf/r.pdf`. An input named `x.pdf.md`
  is another: its output `x.pdf.pdf` gives `x_cleaned.pdf.pdf`.
  `PostProcess.TempPathMeaning` states the path only when no earlier
  `.pdf` occurs.
