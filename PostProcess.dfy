/** The post-processing chain of markpdf.js that runs after the browser has
    printed the PDF: mutool rewrites it into a cleaned copy which replaces
    the original, mat2 strips it in place when mutool cannot, and exiftool
    then writes the tags of the metadata sidecar (markpdf.js:139-268). Each
    stage is a function of the programs' outcomes giving the trace of steps
    and the settlement of the promise. */
module PostProcess {
  import opened Wrappers
  import opened Errors
  import Text
  import opened Processes
  import opened Metadata

  const CleanedPdf := "_cleaned.pdf"
  const OverwriteOriginal := "-overwrite_original"

  /** What the outside world does during one post-processing run. */
  datatype Outcomes = Outcomes(
    mutool: Outcome,
    renameOk: bool,    // fs.renameSync of the cleaned copy over the PDF succeeds
    tempLeft: bool,    // a cleaned copy exists after mutool has failed
    mat2: Outcome,
    exiftool: Outcome)

  /** Where mutool writes the cleaned copy: the first ".pdf" of the path
      replaced by "_cleaned.pdf" (markpdf.js:144). */
  function TempPath(pdf: string): string {
    Text.ReplaceFirst(pdf, ".pdf", CleanedPdf)
  }

  function MutoolArgs(pdf: string, temp: string): seq<string> {
    ["clean", "-d", "-s", "-z", pdf, temp]
  }

  function Mat2Args(pdf: string): seq<string> {
    ["--lightweight", "--inplace", pdf]
  }

  /** How injectMetadata settles on the outcome of exiftool: a missing
      exiftool and exit code 0 resolve, another spawn error or a non-zero
      code rejects, a null code settles nothing. */
  function ExiftoolSettlement(exiftool: Outcome): Settlement {
    match exiftool
    case NotFound => Resolved
    case SpawnFailed => Rejected(SpawnError(Exiftool))
    case Exited(code) => if code == 0 then Resolved else Rejected(ExitedWith(Exiftool, Some(code)))
    case Signalled => Unsettled
  }

  /** The exiftool arguments the sidecar gives (markpdf.js:222-237): none
      when the file is missing, otherwise one per qualifying line.
      `sidecar` is the content of <dir>/<base>-metadata.md when that file
      exists. */
  function SidecarTags(sidecar: Option<string>): seq<string> {
    if sidecar.None? then [] else MetadataArgs(Text.Split(sidecar.value, '\n'))
  }

  /** injectMetadata once the tags are collected: without tags it resolves
      at once, otherwise it runs exiftool on the tags followed by
      -overwrite_original and the PDF. */
  function InjectMetadata(pdf: string, tags: seq<string>, exiftool: Outcome): Run {
    if |tags| == 0 then Run([], Resolved)
    else Run([Invoke(Exiftool, tags + [OverwriteOriginal, pdf])], ExiftoolSettlement(exiftool))
  }

  /** fallbackMat2: every outcome of mat2 except a non-ENOENT spawn error and
      a null exit code carries on to injectMetadata. */
  function FallbackMat2(pdf: string, tags: seq<string>, o: Outcomes): Run {
    var mat2 := [Invoke(Mat2, Mat2Args(pdf))];
    match o.mat2
    case SpawnFailed => Run(mat2, Rejected(SpawnError(Mat2)))
    case Signalled => Run(mat2, Unsettled)
    case _ => Then(mat2, InjectMetadata(pdf, tags, o.exiftool))
  }

  /** stripAndInjectMetadata: on exit code 0 the cleaned copy is renamed over
      the PDF and injection follows; a failed rename, a missing mutool and
      any other exit end in fallbackMat2, the last after deleting a leftover
      cleaned copy. */
  function StripAndInject(pdf: string, tags: seq<string>, o: Outcomes): Run {
    var temp := TempPath(pdf);
    var mutool := [Invoke(Mutool, MutoolArgs(pdf, temp))];
    match o.mutool
    case NotFound => Then(mutool, FallbackMat2(pdf, tags, o))
    case SpawnFailed => Run(mutool, Rejected(SpawnError(Mutool)))
    case _ =>
      if o.mutool == Exited(0) then
        if o.renameOk then Then(mutool + [Rename(temp, pdf)], InjectMetadata(pdf, tags, o.exiftool))
        else Then(mutool + [Rename(temp, pdf)], FallbackMat2(pdf, tags, o))
      else
        Then(mutool + (if o.tempLeft then [Remove(temp)] else []), FallbackMat2(pdf, tags, o))
  }

  /** The sidecar exists and one of its lines qualifies as a tag. */
  predicate SidecarHasTag(sidecar: Option<string>) {
    sidecar.Some? &&
    var lines := Text.Split(sidecar.value, '\n');
    exists k :: 0 <= k < |lines| && LineArg(lines[k]).Some?
  }

  /** Tags are collected exactly when the sidecar exists and one of its
      lines qualifies. */
  lemma SidecarTagsMeaning(sidecar: Option<string>)
    ensures SidecarTags(sidecar) != [] <==> SidecarHasTag(sidecar)
  {
    if sidecar.Some? {
      NoMetadataArgs(Text.Split(sidecar.value, '\n'));
    }
  }

  /** mutool cleaned the PDF and the cleaned copy replaced it. */
  predicate MutoolCleans(o: Outcomes) {
    o.mutool == Exited(0) && o.renameOk
  }

  /** The chain falls back to mat2: mutool is missing, exits with a code other
      than 0 or with a null code, or the rename fails. */
  predicate FallsBackToMat2(o: Outcomes) {
    o.mutool != SpawnFailed && !MutoolCleans(o)
  }

  /** The chain reaches injectMetadata. */
  predicate ReachesInjection(o: Outcomes) {
    MutoolCleans(o) || (FallsBackToMat2(o) && (o.mat2 == NotFound || o.mat2.Exited?))
  }

  /** Injection runs nothing without tags; otherwise it runs exiftool once,
      on the tags in line order followed by -overwrite_original and the PDF,
      resolves exactly when exiftool is missing or exits with 0, and settles
      nothing exactly when exiftool's code is null. */
  lemma InjectMetadataMeaning(pdf: string, tags: seq<string>, exiftool: Outcome)
    ensures var r := InjectMetadata(pdf, tags, exiftool);
      && (tags == [] ==> r == Run([], Resolved))
      && (tags != [] ==>
            && r.steps == [Invoke(Exiftool, tags + [OverwriteOriginal, pdf])]
            && (r.settlement == Resolved <==> exiftool == NotFound || exiftool == Exited(0))
            && (r.settlement == Unsettled <==> exiftool == Signalled)
            && (exiftool == SpawnFailed ==> r.settlement == Rejected(SpawnError(Exiftool)))
            && (exiftool.Exited? && exiftool.code != 0 ==>
                  r.settlement == Rejected(ExitedWith(Exiftool, Some(exiftool.code)))))
  {
  }

  /** The programs a post-processing run spawns, in order: always mutool;
      mat2 exactly when the chain falls back to it; exiftool exactly when
      the chain reaches injection and the sidecar has a tag. */
  lemma StripAndInjectTools(pdf: string, tags: seq<string>, o: Outcomes)
    ensures Tools(StripAndInject(pdf, tags, o).steps)
      == [Mutool] + (if FallsBackToMat2(o) then [Mat2] else [])
                  + (if ReachesInjection(o) && tags != [] then [Exiftool] else [])
  {
    var temp := TempPath(pdf);
    var mutool := [Invoke(Mutool, MutoolArgs(pdf, temp))];
    var r := StripAndInject(pdf, tags, o);
    if o.mutool == SpawnFailed {
      assert r.steps == mutool;
    } else if o.mutool == NotFound {
      FollowedByFallback(mutool, pdf, tags, o);
    } else if o.mutool == Exited(0) {
      var head := mutool + [Rename(temp, pdf)];
      if o.renameOk {
        InjectTools(pdf, tags, o.exiftool);
        ToolsConcat(head, InjectMetadata(pdf, tags, o.exiftool).steps);
      } else {
        FollowedByFallback(head, pdf, tags, o);
      }
    } else {
      FollowedByFallback(mutool + (if o.tempLeft then [Remove(temp)] else []), pdf, tags, o);
    }
  }

  /** The mutool step, possibly followed by a rename or a removal, spawns mutool only. */
  lemma FollowedByFallback(head: seq<Step>, pdf: string, tags: seq<string>, o: Outcomes)
    requires 1 <= |head| <= 2 && head[0].Invoke? && head[0].tool == Mutool
    requires |head| == 2 ==> !head[1].Invoke?
    ensures Tools(Then(head, FallbackMat2(pdf, tags, o)).steps)
      == [Mutool, Mat2] + (if (o.mat2 == NotFound || o.mat2.Exited?) && tags != [] then [Exiftool] else [])
  {
    var fallback := FallbackMat2(pdf, tags, o);
    assert Tools(head) == [Mutool] by {
      if |head| == 2 {
        assert Tools(head[1..][1..]) == [];
      }
    }
    FallbackTools(pdf, tags, o);
    ToolsConcat(head, fallback.steps);
  }

  lemma FallbackTools(pdf: string, tags: seq<string>, o: Outcomes)
    ensures Tools(FallbackMat2(pdf, tags, o).steps)
      == [Mat2] + (if (o.mat2 == NotFound || o.mat2.Exited?) && tags != [] then [Exiftool] else [])
  {
    var mat2 := [Invoke(Mat2, Mat2Args(pdf))];
    assert Tools(mat2) == [Mat2] by {
      assert Tools(mat2[1..]) == [];
    }
    if o.mat2 == NotFound || o.mat2.Exited? {
      InjectTools(pdf, tags, o.exiftool);
      ToolsConcat(mat2, InjectMetadata(pdf, tags, o.exiftool).steps);
    }
  }

  lemma InjectTools(pdf: string, tags: seq<string>, exiftool: Outcome)
    ensures Tools(InjectMetadata(pdf, tags, exiftool).steps) == if tags != [] then [Exiftool] else []
  {
    if tags != [] {
      var steps := InjectMetadata(pdf, tags, exiftool).steps;
      assert Tools(steps[1..]) == [];
    }
  }

  /** How a post-processing run settles: a non-ENOENT spawn error of mutool
      or of mat2 rejects with it, a null exit code of mat2 settles nothing,
      and a run reaching injection settles as injection does. With none of
      the three programs installed the run resolves. */
  lemma StripAndInjectSettlement(pdf: string, tags: seq<string>, o: Outcomes)
    ensures var s := StripAndInject(pdf, tags, o).settlement;
      && (o.mutool == SpawnFailed ==> s == Rejected(SpawnError(Mutool)))
      && (FallsBackToMat2(o) && o.mat2 == SpawnFailed ==> s == Rejected(SpawnError(Mat2)))
      && (FallsBackToMat2(o) && o.mat2 == Signalled ==> s == Unsettled)
      && (ReachesInjection(o) ==> s == InjectMetadata(pdf, tags, o.exiftool).settlement)
      && (o.mutool == NotFound && o.mat2 == NotFound && o.exiftool == NotFound ==> s == Resolved)
  {
    InjectMetadataMeaning(pdf, tags, o.exiftool);
  }

  /** When mutool fails with an exit code, its leftover cleaned copy is
      deleted before mat2 starts; the only file a run ever deletes is the
      cleaned copy, and the only rename moves it onto the PDF. */
  lemma CleanedCopyHandling(pdf: string, tags: seq<string>, o: Outcomes)
    ensures var r := StripAndInject(pdf, tags, o);
      && r.steps[0] == Invoke(Mutool, MutoolArgs(pdf, TempPath(pdf)))
      && ((o.mutool.Exited? && o.mutool.code != 0) || o.mutool == Signalled ==>
            if o.tempLeft then r.steps[1] == Remove(TempPath(pdf)) && r.steps[2] == Invoke(Mat2, Mat2Args(pdf))
            else r.steps[1] == Invoke(Mat2, Mat2Args(pdf)))
      && (forall i :: 0 <= i < |r.steps| && r.steps[i].Remove? ==> i == 1 && r.steps[i].path == TempPath(pdf))
      && (forall i :: 0 <= i < |r.steps| && r.steps[i].Rename? ==>
            i == 1 && r.steps[i] == Rename(TempPath(pdf), pdf))
  {
    var temp := TempPath(pdf);
    var mutool := [Invoke(Mutool, MutoolArgs(pdf, temp))];
    var inject := InjectMetadata(pdf, tags, o.exiftool).steps;
    var fallback := FallbackMat2(pdf, tags, o).steps;
    OnlyInvokes(pdf, tags, o);
    var head: seq<Step>, rest: seq<Step>;
    if o.mutool == NotFound {
      head, rest := mutool, fallback;
    } else if o.mutool == SpawnFailed {
      head, rest := mutool, [];
    } else if o.mutool == Exited(0) {
      head, rest := mutool + [Rename(temp, pdf)], if o.renameOk then inject else fallback;
    } else {
      head, rest := mutool + (if o.tempLeft then [Remove(temp)] else []), fallback;
      assert o.tempLeft ==> fallback[0] == Invoke(Mat2, Mat2Args(pdf));
    }
    assert StripAndInject(pdf, tags, o).steps == head + rest;
  }

  /** Injection and the mat2 fallback only spawn programs. */
  lemma OnlyInvokes(pdf: string, tags: seq<string>, o: Outcomes)
    ensures var inject := InjectMetadata(pdf, tags, o.exiftool).steps;
      forall i :: 0 <= i < |inject| ==> inject[i].Invoke?
    ensures var fallback := FallbackMat2(pdf, tags, o).steps;
      && |fallback| >= 1 && fallback[0] == Invoke(Mat2, Mat2Args(pdf))
      && forall i :: 0 <= i < |fallback| ==> fallback[i].Invoke?
  {
    var inject := InjectMetadata(pdf, tags, o.exiftool).steps;
    var fallback := FallbackMat2(pdf, tags, o).steps;
    if o.mat2 == NotFound || o.mat2.Exited? {
      assert forall i :: 1 <= i < |fallback| ==> fallback[i] == inject[i - 1];
    }
  }

  /** For a PDF path ending in ".pdf", the cleaned copy's path is 8
      characters longer, so it is never the PDF itself; when ".pdf" occurs
      nowhere else in the path, it is the path with the extension replaced by
      "_cleaned.pdf". */
  lemma TempPathMeaning(pdf: string)
    requires |pdf| >= 4 && pdf[|pdf| - 4..] == ".pdf"
    ensures |TempPath(pdf)| == |pdf| + 8 && TempPath(pdf) != pdf
    ensures (forall i :: 0 <= i < |pdf| - 4 ==> !Text.OccursAt(pdf, ".pdf", i))
            ==> TempPath(pdf) == pdf[..|pdf| - 4] + CleanedPdf
  {
    assert Text.OccursAt(pdf, ".pdf", |pdf| - 4);
    var i :| Text.IndexOf(pdf, ".pdf") == Some(i);
  }
}
