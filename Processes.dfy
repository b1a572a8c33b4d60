/** What the tool asks of the operating system when it renders a PDF, and how
    the promise it returns settles. An external program is not run: its
    outcome is an input, and a run of the tool is the trace of steps it takes
    together with its settlement. */
module Processes {
  import opened Wrappers
  import opened Errors

  /** How a spawned program ends, as the tool's listeners see it: an 'error'
      event with code ENOENT, any other 'error' event, or a 'close' event
      with an exit code or with a null code (killed by a signal). */
  datatype Outcome = NotFound | SpawnFailed | Exited(code: int) | Signalled

  /** One effect the tool performs: spawning a program with its argument
      vector, renaming a file over another, or deleting a file. */
  datatype Step =
    | Invoke(tool: Tool, args: seq<string>)
    | Rename(from: string, to: string)
    | Remove(path: string)

  /** How the returned promise ends. A handler that neither resolves nor
      rejects leaves it Unsettled. */
  datatype Settlement = Resolved | Rejected(failure: Failure) | Unsettled

  datatype Run = Run(steps: seq<Step>, settlement: Settlement)

  /** `steps` followed by the run a handler chains to with `.then(resolve).catch(reject)`. */
  function Then(steps: seq<Step>, next: Run): (r: Run)
    ensures r.settlement == next.settlement && |r.steps| == |steps| + |next.steps|
    ensures r.steps[..|steps|] == steps && r.steps[|steps|..] == next.steps
  {
    Run(steps + next.steps, next.settlement)
  }

  /** The program a step spawns, if any. */
  function ToolOf(step: Step): seq<Tool> {
    if step.Invoke? then [step.tool] else []
  }

  /** The programs a trace spawns, in order. */
  function Tools(steps: seq<Step>): seq<Tool> {
    if |steps| == 0 then [] else ToolOf(steps[0]) + Tools(steps[1..])
  }

  /** The programs spawned by consecutive traces are those of each, in order. */
  lemma {:induction false} ToolsConcat(a: seq<Step>, b: seq<Step>)
    ensures Tools(a + b) == Tools(a) + Tools(b)
  {
    if |a| == 0 {
      assert a + b == b;
    } else {
      var ab := a + b;
      assert ab[0] == a[0] && ab[1..] == a[1..] + b;
      ToolsConcat(a[1..], b);
      calc {
        Tools(ab);
        ToolOf(a[0]) + Tools(a[1..] + b);
        ToolOf(a[0]) + (Tools(a[1..]) + Tools(b));
      }
    }
  }

  /** The argument vector of the headless browser (markpdf.js:109-114). */
  function ChromiumArgs(pdf: string, url: string): seq<string> {
    ["--headless", "--print-to-pdf=" + pdf, "--no-pdf-header-footer", url]
  }
}
