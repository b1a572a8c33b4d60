/** The sidecar metadata parser of injectMetadata (markpdf.js:229-237): the
    sidecar's text is split into lines, and every `Key: value` line becomes
    one exiftool argument `-Key=value`. */
module Metadata {
  import opened Wrappers
  import opened Text

  /** The argument one line gives, as the source computes it: the first piece
      of `line.split(':')` is the key, the other pieces are joined back with
      ':' and trimmed to give the value; a line gives an argument when the key
      is not empty and there is at least one other piece. */
  function LineArg(line: string): Option<string> {
    var parts := Split(line, ':');
    var key := parts[0];
    var valueParts := parts[1..];
    if key != "" && |valueParts| > 0 then Some("-" + key + "=" + Trim(Join(valueParts, ':')))
    else None
  }

  /** What LineArg means: a line without ':' gives nothing; otherwise the key
      is the untrimmed text before the first ':' (a line starting with ':'
      gives nothing) and the value is everything after that ':', later colons
      included, trimmed. */
  lemma LineArgMeaning(line: string)
    ensures ':' !in line ==> LineArg(line) == None
    ensures forall i :: 0 <= i < |line| && line[i] == ':' && ':' !in line[..i] ==>
      LineArg(line) == (if i == 0 then None else Some("-" + line[..i] + "=" + Trim(line[i + 1..])))
  {
    if ':' !in line {
      SplitWithoutSeparator(line, ':');
    }
    forall i | 0 <= i < |line| && line[i] == ':' && ':' !in line[..i] {
      LineArgAtFirstColon(line, i);
    }
  }

  /** LineArg of a line whose first ':' is at index i. */
  lemma LineArgAtFirstColon(line: string, i: nat)
    requires i < |line| && line[i] == ':' && ':' !in line[..i]
    ensures LineArg(line) == (if i == 0 then None else Some("-" + line[..i] + "=" + Trim(line[i + 1..])))
  {
    SplitAtFirst(line, ':', i);
  }

  /** The arguments a line contributes: none or one. */
  function ArgsOf(line: string): seq<string> {
    match LineArg(line)
    case Some(arg) => [arg]
    case None => []
  }

  /** The tag arguments of a list of lines, in line order. */
  function MetadataArgs(lines: seq<string>): seq<string> {
    if |lines| == 0 then []
    else MetadataArgs(lines[..|lines| - 1]) + ArgsOf(lines[|lines| - 1])
  }

  /** The arguments of consecutive blocks of lines are those of each block,
      in order: with MetadataArgs([line]) == ArgsOf(line) this says that each
      qualifying line contributes exactly its own argument, in line order. */
  lemma {:induction false} MetadataArgsConcat(a: seq<string>, b: seq<string>)
    ensures MetadataArgs(a + b) == MetadataArgs(a) + MetadataArgs(b)
  {
    if |b| == 0 {
      assert a + b == a;
    } else {
      var b' := b[..|b| - 1];
      assert (a + b)[..|a + b| - 1] == a + b';
      MetadataArgsConcat(a, b');
    }
  }

  /** No argument at all exactly when no line qualifies. */
  lemma {:induction false} NoMetadataArgs(lines: seq<string>)
    ensures MetadataArgs(lines) == [] <==> forall k :: 0 <= k < |lines| ==> LineArg(lines[k]).None?
  {
    if |lines| > 0 {
      var init, last := lines[..|lines| - 1], lines[|lines| - 1];
      NoMetadataArgs(init);
      assert MetadataArgs(lines) == MetadataArgs(init) + ArgsOf(last);
      assert ArgsOf(last) == [] <==> LineArg(last).None?;
      assert forall k :: 0 <= k < |init| ==> init[k] == lines[k];
    }
  }

  /** The arguments of the first k + 1 lines extend those of the first k. */
  lemma MetadataArgsPrefix(lines: seq<string>, k: nat)
    requires k < |lines|
    ensures MetadataArgs(lines[..k + 1]) == MetadataArgs(lines[..k]) + ArgsOf(lines[k])
  {
    var done := lines[..k + 1];
    assert done[..k] == lines[..k] && done[k] == lines[k];
  }

  /** The loop of injectMetadata: split the sidecar text into lines and push
      `-key=value` for every line with a non-empty key and a ':'. */
  method CollectMetadataArgs(content: string) returns (args: seq<string>)
    ensures args == MetadataArgs(Split(content, '\n'))
  {
    var lines := Split(content, '\n');
    args := [];
    for k := 0 to |lines|
      invariant args == MetadataArgs(lines[..k])
    {
      var parts := Split(lines[k], ':');
      var key := parts[0];
      var valueParts := parts[1..];
      MetadataArgsPrefix(lines, k);
      if key != "" && |valueParts| > 0 {
        var value := Trim(Join(valueParts, ':'));
        assert ArgsOf(lines[k]) == ["-" + key + "=" + value];
        args := args + ["-" + key + "=" + value];
      } else {
        assert ArgsOf(lines[k]) == [];
      }
    }
    assert lines[..|lines|] == lines;
  }

  /** A sidecar holding one `Key: value` line gives the single argument
      `-Key=<value trimmed>`. */
  lemma SingleLineSidecar(key: string, value: string)
    requires key != "" && ':' !in key && '\n' !in key && '\n' !in value
    ensures MetadataArgs(Split(key + ":" + value, '\n')) == ["-" + key + "=" + Trim(value)]
  {
    var line := key + ":" + value;
    assert '\n' !in line;
    SplitWithoutSeparator(line, '\n');
    assert line[..|key|] == key && line[|key| + 1..] == value;
    LineArgAtFirstColon(line, |key|);
    assert [line][..0] == [];
  }
}
