/** The names a conversion job derives from its input file in the
    constructor (markpdf.js:8-18, markpdf-chromium.js:8-18), and the paths
    of the working files, templates and metadata sidecar built from them. */
module Naming {
  import Text
  import opened Paths

  const MarkdownExt := ".md"
  const PdfExt := ".pdf"
  const HtmlExt := ".html"
  const StylesName := "styles.css"
  const IndexTemplateName := "index.html"
  const Placeholder := "MARKDOWN_FILE"
  const SidecarSuffix := "-metadata.md"

  /** The fields the constructor fills in from the input path. */
  datatype Job = Job(
    inputFile: string,      // the resolved input path
    inputDir: string,       // its directory
    inputBasename: string,  // its file name with a trailing ".md" removed
    outputFile: string,     // <inputDir>/<inputBasename>.pdf
    htmlFile: string,       // <inputBasename>.html
    toolDir: string)        // the directory holding the templates

  /** The constructor's derivation, from an input already resolved by path.resolve. */
  function NewJob(inputFile: string, toolDir: string): Job {
    var dir := Dirname(inputFile);
    var base := StripExt(Basename(inputFile), MarkdownExt);
    Job(inputFile, dir, base, Join(dir, base + PdfExt), base + HtmlExt, toolDir)
  }

  /** The shape of every job the constructor builds from a resolved input
      and tool directory (see NewJobNames). */
  predicate JobOk(j: Job) {
    && IsDirectory(j.inputDir) && IsDirectory(j.toolDir)
    && IsFileName(j.inputBasename)
    && j.htmlFile == j.inputBasename + HtmlExt
    && j.outputFile == Join(j.inputDir, j.inputBasename + PdfExt)
  }

  /** The input's file name, extension included (path.basename(this.inputFile)). */
  function FileName(j: Job): string { Basename(j.inputFile) }

  function WorkingIndex(j: Job): string { Join(j.inputDir, j.htmlFile) }
  function WorkingStyles(j: Job): string { Join(j.inputDir, StylesName) }
  function IndexTemplate(j: Job): string { Join(j.toolDir, IndexTemplateName) }
  function StylesTemplate(j: Job): string { Join(j.toolDir, StylesName) }
  function SidecarPath(j: Job): string { Join(j.inputDir, j.inputBasename + SidecarSuffix) }

  /** The HTML wrapper made from the index template: the first occurrence of
      the placeholder replaced by the input's file name. */
  function Wrapper(template: string, j: Job): string {
    Text.ReplaceFirst(template, Placeholder, FileName(j))
  }

  predicate EndsWith(s: string, suffix: string) {
    |s| >= |suffix| && s[|s| - |suffix|..] == suffix
  }

  /** The constructor's names: the directory and file name recombine to the
      input; the basename is the file name without a trailing ".md" (kept
      when the name is exactly ".md" or has another extension); the output
      and wrapper carry that basename with ".pdf" and ".html". */
  lemma NewJobNames(inputFile: string, toolDir: string)
    requires IsResolved(inputFile) && IsDirectory(toolDir)
    ensures var j := NewJob(inputFile, toolDir);
      && JobOk(j)
      && Join(j.inputDir, FileName(j)) == inputFile
      && (EndsWith(FileName(j), MarkdownExt) && |FileName(j)| > |MarkdownExt|
          ==> j.inputBasename + MarkdownExt == FileName(j))
      && (!EndsWith(FileName(j), MarkdownExt) || |FileName(j)| <= |MarkdownExt|
          ==> j.inputBasename == FileName(j))
      && Dirname(j.outputFile) == j.inputDir && Basename(j.outputFile) == j.inputBasename + PdfExt
      && EndsWith(j.htmlFile, HtmlExt) && j.htmlFile[..|j.htmlFile| - |HtmlExt|] == j.inputBasename
  {
    var j := NewJob(inputFile, toolDir);
    ResolvedSplits(inputFile);
    var name := FileName(j);
    assert '/' !in j.inputBasename by {
      assert j.inputBasename == name[..|j.inputBasename|];
    }
    assert '/' !in j.inputBasename + PdfExt;
    JoinSplits(j.inputDir, j.inputBasename + PdfExt);
    assert (j.inputBasename + HtmlExt)[..|j.inputBasename|] == j.inputBasename;
  }

  /** Facts about the file names every job path is built from. */
  lemma JobNameFacts(j: Job)
    requires JobOk(j)
    ensures IsFileName(j.htmlFile)
    ensures IsFileName(j.inputBasename + PdfExt) && j.inputBasename + PdfExt != j.htmlFile
    ensures j.htmlFile != StylesName && j.inputBasename + PdfExt != StylesName
  {
    var b := j.inputBasename;
    assert (b + PdfExt)[|b| + 3] == 'f';
    assert (b + HtmlExt)[|b| + 3] == 'm';
    assert (b + HtmlExt)[|b| + 4] == 'l';
    assert StylesName[9] == 's';
  }

  /** The two working files, the two templates and the output never share a
      path, except that a working file is its template when the input lies
      in the tool directory (the wrapper only for an input named index.md). */
  lemma JobPathsDistinct(j: Job)
    requires JobOk(j)
    ensures WorkingIndex(j) != WorkingStyles(j)
    ensures WorkingIndex(j) != StylesTemplate(j) && WorkingStyles(j) != IndexTemplate(j)
    ensures IndexTemplate(j) != StylesTemplate(j)
    ensures WorkingStyles(j) == StylesTemplate(j) <==> j.inputDir == j.toolDir
    ensures WorkingIndex(j) == IndexTemplate(j) <==> j.inputDir == j.toolDir && j.htmlFile == IndexTemplateName
    ensures j.outputFile != WorkingIndex(j) && j.outputFile != WorkingStyles(j)
    ensures j.outputFile != IndexTemplate(j) && j.outputFile != StylesTemplate(j)
  {
    JobNameFacts(j);
    assert StylesName[9] == 's' && IndexTemplateName[9] == 'l';
    JoinInjective(j.inputDir, j.htmlFile, j.inputDir, StylesName);
    JoinInjective(j.inputDir, j.htmlFile, j.toolDir, StylesName);
    JoinInjective(j.inputDir, StylesName, j.toolDir, IndexTemplateName);
    JoinInjective(j.toolDir, IndexTemplateName, j.toolDir, StylesName);
    JoinInjective(j.inputDir, StylesName, j.toolDir, StylesName);
    JoinInjective(j.inputDir, j.htmlFile, j.toolDir, IndexTemplateName);
    JoinInjective(j.inputDir, j.inputBasename + PdfExt, j.inputDir, j.htmlFile);
    JoinInjective(j.inputDir, j.inputBasename + PdfExt, j.inputDir, StylesName);
    assert PdfExt[3] == 'f';
    JoinInjective(j.inputDir, j.inputBasename + PdfExt, j.toolDir, IndexTemplateName);
    JoinInjective(j.inputDir, j.inputBasename + PdfExt, j.toolDir, StylesName);
  }

  /** For a Markdown input (a name ending in ".md", longer than ".md"), no
      path the tool writes or deletes is the input itself. */
  lemma DerivedPathsAvoidInput(inputFile: string, toolDir: string)
    requires IsResolved(inputFile) && IsDirectory(toolDir)
    requires EndsWith(Basename(inputFile), MarkdownExt) && |Basename(inputFile)| > |MarkdownExt|
    ensures var j := NewJob(inputFile, toolDir);
      && j.outputFile != inputFile && WorkingIndex(j) != inputFile
      && WorkingStyles(j) != inputFile && SidecarPath(j) != inputFile
  {
    NewJobNames(inputFile, toolDir);
    var j := NewJob(inputFile, toolDir);
    assert inputFile == Join(j.inputDir, j.inputBasename + MarkdownExt);
    SiblingsOfMarkdown(j.inputDir, j.inputBasename);
  }

  /** In one directory, `b.md` differs from `b.pdf`, `b.html`, `styles.css`
      and `b-metadata.md`. */
  lemma SiblingsOfMarkdown(dir: string, b: string)
    requires IsDirectory(dir) && IsFileName(b)
    ensures var md := Join(dir, b + MarkdownExt);
      && Join(dir, b + PdfExt) != md && Join(dir, b + HtmlExt) != md
      && Join(dir, StylesName) != md && Join(dir, b + SidecarSuffix) != md
  {
    var name := b + MarkdownExt;
    assert name[|name| - 1] == 'd';
    assert (b + PdfExt)[|b| + 3] == 'f';
    assert (b + HtmlExt)[|b| + 4] == 'l';
    assert StylesName[9] == 's';
    assert |b + SidecarSuffix| > |name|;
    JoinInjective(dir, b + PdfExt, dir, name);
    JoinInjective(dir, b + HtmlExt, dir, name);
    JoinInjective(dir, StylesName, dir, name);
    JoinInjective(dir, b + SidecarSuffix, dir, name);
  }
}
