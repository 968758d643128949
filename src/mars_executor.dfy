/**
 * The pure parts of the MARS executor: the command line that starts the
 * simulator, the scan of its output for error messages, and the rule that
 * a completed run succeeded exactly when that scan found nothing. Running
 * the simulator, temporary files and timeouts are outside the model; the
 * captured `stdout` and `stderr` are inputs.
 */
module MarsExecutor {
  import opened Wrappers
  import opened Text
  import opened Schemas

  // ---------------------------------------------------------------------
  // The result record
  // ---------------------------------------------------------------------

  datatype MarsResult = MarsResult(success: bool, stdout: string, stderr: string, error: Option<string>, timeout: bool)

  /** What `execute` and `execute_with_trace` return once the simulator has exited. */
  function CompletedRun(stdout: string, stderr: string): (r: MarsResult)
    ensures r.stdout == stdout && r.stderr == stderr && !r.timeout
    ensures r.error == CheckForErrors(stdout, stderr)
  {
    var error := CheckForErrors(stdout, stderr);
    MarsResult(error.None?, stdout, stderr, error, false)
  }

  /**
   * What they return when the simulator overran its time limit; `limit` is
   * the limit in seconds as Python prints it.
   */
  function TimedOut(limit: string): (r: MarsResult)
    ensures r.timeout && r.stdout == "" && r.stderr == ""
    ensures r.error == Some("Execution timeout (>" + limit + "s)")
  {
    MarsResult(false, "", "", Some("Execution timeout (>" + limit + "s)"), true)
  }

  /** What they return when starting the simulator raised an exception whose text is `message`. */
  function Crashed(message: string): (r: MarsResult)
    ensures !r.timeout && r.stdout == "" && r.stderr == message
    ensures r.error == Some("Execution error: " + message)
  {
    MarsResult(false, "", message, Some("Execution error: " + message), false)
  }

  /** A result reports success exactly when it carries no error. */
  predicate Consistent(r: MarsResult) {
    r.success <==> r.error.None?
  }

  /**
   * Every way of ending a run gives a consistent result; a completed run
   * succeeds iff its output holds no error, and the other two never succeed.
   */
  lemma RunsConsistent(stdout: string, stderr: string, limit: string, message: string)
    ensures Consistent(CompletedRun(stdout, stderr)) && Consistent(TimedOut(limit)) && Consistent(Crashed(message))
    ensures CompletedRun(stdout, stderr).success <==> !ErrorReported(stdout, stderr)
    ensures !TimedOut(limit).success && !Crashed(message).success
  {
  }

  // ---------------------------------------------------------------------
  // Error scan
  // ---------------------------------------------------------------------

  /** A line of standard output that reports an error: it says "Error" and does not say "Warning". */
  predicate IsErrorLine(line: string) {
    Contains(line, "Error") && !Contains(line, "Warning")
  }

  /** The error lines, in their original order. */
  function ErrorLines(lines: seq<string>): (r: seq<string>)
    ensures |r| <= |lines|
  {
    if |lines| == 0 then []
    else ErrorLines(lines[..|lines| - 1]) + (if IsErrorLine(lines[|lines| - 1]) then [lines[|lines| - 1]] else [])
  }

  /** The standard error stream reports an error: it is not empty and says "error" in any case. */
  predicate StderrReportsError(stderr: string) {
    |stderr| > 0 && (Contains(stderr, "Error") || Contains(Lower(stderr), "error"))
  }

  /**
   * `_check_for_errors`: an error is reported exactly when standard error
   * mentions one or some output line is an error line; the report is the
   * stripped standard error in the first case and otherwise the error lines
   * joined by newlines.
   */
  function CheckForErrors(stdout: string, stderr: string): (r: Option<string>)
    ensures r.Some? <==> ErrorReported(stdout, stderr)
    ensures StderrReportsError(stderr) ==> r == Some(Strip(stderr))
    ensures !StderrReportsError(stderr) && HasErrorLine(stdout) ==> r == Some(Join(ErrorLines(Split(stdout, '\n')), "\n"))
  {
    LowerFindsError(stderr);
    ErrorLinesEmpty(Split(stdout, '\n'));
    ErrorLineInOutput(stdout);
    if StderrReportsError(stderr) then Some(Strip(stderr))
    else if Contains(stdout, "Error") then
      var lines := ErrorLines(Split(stdout, '\n'));
      if |lines| > 0 then Some(Join(lines, "\n")) else None
    else None
  }

  /** Some line of the output is an error line. */
  predicate HasErrorLine(stdout: string) {
    exists k :: 0 <= k < |Split(stdout, '\n')| && IsErrorLine(Split(stdout, '\n')[k])
  }

  /** Whether the scan reports an error, stated without the scan. */
  function ErrorReported(stdout: string, stderr: string): bool {
    (|stderr| > 0 && Contains(Lower(stderr), "error")) || HasErrorLine(stdout)
  }

  /** The filter keeps order: it distributes over concatenation. */
  lemma {:induction false} ErrorLinesConcat(a: seq<string>, b: seq<string>)
    ensures ErrorLines(a + b) == ErrorLines(a) + ErrorLines(b)
    decreases |b|
  {
    if |b| > 0 {
      var n := |b| - 1;
      assert (a + b)[..|a + b| - 1] == a + b[..n];
      ErrorLinesConcat(a, b[..n]);
    } else {
      assert a + b == a;
    }
  }

  /** The error lines are exactly the lines that report an error. */
  lemma {:induction false} ErrorLinesMembers(lines: seq<string>, x: string)
    ensures x in ErrorLines(lines) <==> x in lines && IsErrorLine(x)
    decreases |lines|
  {
    if |lines| > 0 {
      var n := |lines| - 1;
      ErrorLinesMembers(lines[..n], x);
      assert lines == lines[..n] + [lines[n]];
    }
  }

  /** No error line is kept exactly when no line reports an error. */
  lemma {:induction false} ErrorLinesEmpty(lines: seq<string>)
    ensures |ErrorLines(lines)| == 0 <==> forall k :: 0 <= k < |lines| ==> !IsErrorLine(lines[k])
    decreases |lines|
  {
    if |lines| > 0 {
      var n := |lines| - 1;
      ErrorLinesEmpty(lines[..n]);
      assert forall k :: 0 <= k < n ==> lines[..n][k] == lines[k];
    }
  }

  /** An upper-case "Error" is also an "error" once lowered, so the stderr test is just the lowered one. */
  lemma LowerFindsError(s: string)
    ensures Contains(s, "Error") ==> Contains(Lower(s), "error")
  {
    if Contains(s, "Error") {
      var i := ContainsWitness(s, "Error");
      var l := Lower(s);
      assert s[i] == 'E' by { assert s[i..i + 5][0] == s[i]; }
      forall k | 0 <= k < 5
        ensures l[i + k] == "error"[k]
      {
        assert s[i + k] == s[i..i + 5][k];
      }
      assert l[i..i + 5] == "error";
      ContainsAt(l, "error", i);
    }
  }

  /** A piece of a join is a substring of it: what a piece contains, the whole contains. */
  lemma {:induction false} JoinContains(parts: seq<string>, sep: string, k: nat, sub: string)
    requires k < |parts| && Contains(parts[k], sub)
    ensures Contains(Join(parts, sep), sub)
    decreases |parts|
  {
    var i := ContainsWitness(parts[k], sub);
    if |parts| == 1 {
      ContainsAt(Join(parts, sep), sub, i);
    } else {
      var rest := Join(parts[1..], sep);
      var whole := parts[0] + sep + rest;
      if k == 0 {
        assert whole[i..i + |sub|] == parts[0][i..i + |sub|];
        ContainsAt(whole, sub, i);
      } else {
        JoinContains(parts[1..], sep, k - 1, sub);
        var j := ContainsWitness(rest, sub);
        var off := |parts[0]| + |sep|;
        assert whole[off + j..off + j + |sub|] == rest[j..j + |sub|];
        ContainsAt(whole, sub, off + j);
      }
    }
  }

  /** An error line of the output puts "Error" in the output itself. */
  lemma ErrorLineInOutput(stdout: string)
    ensures HasErrorLine(stdout) ==> Contains(stdout, "Error")
  {
    if !HasErrorLine(stdout) {
      return;
    }
    var lines := Split(stdout, '\n');
    var k :| 0 <= k < |lines| && IsErrorLine(lines[k]);
    JoinContains(lines, "\n", k, "Error");
    JoinSplit(stdout, '\n');
  }

  // ---------------------------------------------------------------------
  // Command line
  // ---------------------------------------------------------------------

  /** The register arguments of the command line: register names as MARS spells them, without `$`. */
  const RegisterArgs: seq<string> := [
    "zero", "at", "v0", "v1", "a0", "a1", "a2", "a3",
    "t0", "t1", "t2", "t3", "t4", "t5", "t6", "t7",
    "s0", "s1", "s2", "s3", "s4", "s5", "s6", "s7",
    "t8", "t9", "k0", "k1", "gp", "sp", "fp", "ra"
  ]

  /** The command-line register list is the register table without the `$` signs, in the same order. */
  lemma RegisterArgsMatchTable()
    ensures |RegisterArgs| == |MipsRegisters| == 32
    ensures forall i :: 0 <= i < 32 ==> "$" + RegisterArgs[i] == MipsRegisters[i]
  {
  }

  /**
   * `_build_command`: `java -jar <jar> nc dec`, the 32 register names when
   * registers are dumped, then the program file.
   */
  method BuildCommand(marsJar: string, asmFile: string, dumpRegisters: bool) returns (cmd: seq<string>)
    ensures |cmd| == if dumpRegisters then 38 else 6
    ensures cmd[..5] == ["java", "-jar", marsJar, "nc", "dec"]
    ensures cmd[|cmd| - 1] == asmFile
    ensures dumpRegisters ==> forall i :: 0 <= i < 32 ==> "$" + cmd[5 + i] == MipsRegisters[i]
  {
    cmd := ["java", "-jar", marsJar, "nc", "dec"];
    if dumpRegisters {
      cmd := cmd + RegisterArgs;
    }
    cmd := cmd + [asmFile];
    RegisterArgsMatchTable();
  }

  /**
   * The command `execute_with_trace` starts: `java -jar <jar> nc dec`, the
   * program file, then the 32 register names appended one by one.
   */
  method TraceCommand(marsJar: string, asmFile: string) returns (cmd: seq<string>)
    ensures |cmd| == 38
    ensures cmd[..6] == ["java", "-jar", marsJar, "nc", "dec", asmFile]
    ensures forall i :: 0 <= i < 32 ==> "$" + cmd[6 + i] == MipsRegisters[i]
  {
    cmd := ["java", "-jar", marsJar, "nc", "dec", asmFile];
    var k := 0;
    while k < |RegisterArgs|
      invariant 0 <= k <= |RegisterArgs|
      invariant cmd == ["java", "-jar", marsJar, "nc", "dec", asmFile] + RegisterArgs[..k]
    {
      cmd := cmd + [RegisterArgs[k]];
      k := k + 1;
    }
    RegisterArgsMatchTable();
  }
}
