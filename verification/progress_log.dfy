/** `log_progress`: the progress log is a text file opened in append mode, so
    it is modelled as its contents. Reading the clock is left to the caller:
    the timestamp arrives as an opaque string. */
module ProgressLog {

  /** What separates the timestamp from the message on each line. */
  const Separator: string := " — "

  /** The file holding `lines`, each followed by a line break. */
  function Render(lines: seq<string>): string
    decreases |lines|
  {
    if lines == [] then [] else lines[0] + "\n" + Render(lines[1..])
  }

  /** The position of the first line break in `t`, or `|t|` if there is none. */
  function NewlineIndex(t: string): (k: nat)
    ensures k <= |t|
    decreases |t|
  {
    if |t| == 0 || t[0] == '\n' then 0 else 1 + NewlineIndex(t[1..])
  }

  /** Reading a text back as lines, without their line breaks; an
      unterminated last piece counts as a line. */
  function Lines(t: string): seq<string>
    decreases |t|
  {
    if |t| == 0 then []
    else
      var k := NewlineIndex(t);
      if k == |t| then [t] else [t[..k]] + Lines(t[k + 1..])
  }

  /** The first line break after a line without one is the one ending it. */
  lemma {:induction false} NewlineIndexAfterLine(line: string, rest: string)
    requires '\n' !in line
    ensures NewlineIndex(line + "\n" + rest) == |line|
    decreases |line|
  {
    var t := line + "\n" + rest;
    if line != [] {
      assert t[0] == line[0];
      assert t[1..] == line[1..] + "\n" + rest;
      NewlineIndexAfterLine(line[1..], rest);
    }
  }

  /** Reading back what was written gives the lines that were written. */
  lemma {:induction false} LinesOfRender(lines: seq<string>)
    requires forall i :: 0 <= i < |lines| ==> '\n' !in lines[i]
    ensures Lines(Render(lines)) == lines
    decreases |lines|
  {
    if lines != [] {
      var rest := Render(lines[1..]);
      var t := Render(lines);
      assert t == lines[0] + "\n" + rest;
      NewlineIndexAfterLine(lines[0], rest);
      assert t[..|lines[0]|] == lines[0];
      assert t[|lines[0]| + 1..] == rest;
      LinesOfRender(lines[1..]);
    }
  }

  /** Writing one more line appends it to the file. */
  lemma {:induction false} RenderAppend(lines: seq<string>, line: string)
    ensures Render(lines + [line]) == Render(lines) + line + "\n"
    decreases |lines|
  {
    if lines == [] {
      assert lines + [line] == [line];
    } else {
      assert (lines + [line])[0] == lines[0];
      assert (lines + [line])[1..] == lines[1..] + [line];
      RenderAppend(lines[1..], line);
    }
  }

  /** A line built from newline-free parts has no line break. */
  lemma LineHasNoBreak(timestamp: string, message: string)
    requires '\n' !in timestamp && '\n' !in message
    ensures '\n' !in timestamp + Separator + message
  {
    var line := timestamp + Separator + message;
    assert forall i :: 0 <= i < |line| ==>
      line[i] == (if i < |timestamp| then timestamp[i]
                  else if i < |timestamp| + |Separator| then Separator[i - |timestamp|]
                  else message[i - |timestamp| - |Separator|]);
  }

  /** Python's `log_progress(message)` at the moment the clock reads
      `timestamp`. */
  function LogProgress(contents: string, timestamp: string, message: string): string {
    contents + (timestamp + Separator + message + "\n")
  }

  /** Each call leaves the earlier contents alone and appends exactly one
      line, `timestamp — message`. */
  lemma LogProgressSpec(lines: seq<string>, timestamp: string, message: string)
    ensures |LogProgress(Render(lines), timestamp, message)| > |Render(lines)|
    ensures LogProgress(Render(lines), timestamp, message)[..|Render(lines)|] == Render(lines)
    ensures LogProgress(Render(lines), timestamp, message) == Render(lines + [timestamp + Separator + message])
  {
    var c := Render(lines);
    var line := timestamp + Separator + message;
    RenderAppend(lines, line);
    assert LogProgress(c, timestamp, message) == c + (line + "\n");
  }

  /** Whatever the file held before, a call leaves it as a prefix and appends
      exactly the line `timestamp — message` and a line break. */
  lemma LogProgressAppends(contents: string, timestamp: string, message: string)
    ensures |LogProgress(contents, timestamp, message)| > |contents|
    ensures LogProgress(contents, timestamp, message)[..|contents|] == contents
    ensures LogProgress(contents, timestamp, message)[|contents|..] == timestamp + Separator + message + "\n"
  {
  }

  /** The log after `log_progress(msgs[0])`, ..., `log_progress(msgs[n - 1])`,
      call `i` reading `clock(i)`. */
  function LogAll(contents: string, clock: nat -> string, msgs: seq<string>, n: nat): string
    requires n <= |msgs|
  {
    if n == 0 then contents
    else LogProgress(LogAll(contents, clock, msgs, n - 1), clock(n - 1), msgs[n - 1])
  }

  /** The lines those calls write: message `i` stamped with `clock(i)`. */
  function Stamped(clock: nat -> string, msgs: seq<string>, n: nat): (lines: seq<string>)
    requires n <= |msgs|
    ensures |lines| == n
  {
    seq(n, i requires 0 <= i < n => clock(i) + Separator + msgs[i])
  }

  /** A sequence of calls keeps the earlier contents and appends exactly one
      line per call, in call order. */
  lemma {:induction false} LogAllSpec(lines: seq<string>, clock: nat -> string, msgs: seq<string>, n: nat)
    requires n <= |msgs|
    ensures |Render(lines)| <= |LogAll(Render(lines), clock, msgs, n)|
    ensures LogAll(Render(lines), clock, msgs, n)[..|Render(lines)|] == Render(lines)
    ensures LogAll(Render(lines), clock, msgs, n) == Render(lines + Stamped(clock, msgs, n))
  {
    if n == 0 {
      assert lines + Stamped(clock, msgs, n) == lines;
    } else {
      var k := n - 1;
      LogAllSpec(lines, clock, msgs, k);
      var earlier := lines + Stamped(clock, msgs, k);
      var line := clock(k) + Separator + msgs[k];
      LogProgressSpec(earlier, clock(k), msgs[k]);
      assert Stamped(clock, msgs, n) == Stamped(clock, msgs, k) + [line];
      assert lines + Stamped(clock, msgs, n) == earlier + [line];
      var before := Render(earlier);
      var after := LogAll(Render(lines), clock, msgs, n);
      assert after[..|Render(lines)|] == after[..|before|][..|Render(lines)|];
    }
  }

  /** Whatever the file held before, a sequence of calls leaves it as a
      prefix and appends the stamped lines, one per call, in call order. */
  lemma {:induction false} LogAllAppends(contents: string, clock: nat -> string, msgs: seq<string>, n: nat)
    requires n <= |msgs|
    ensures |contents| <= |LogAll(contents, clock, msgs, n)|
    ensures LogAll(contents, clock, msgs, n)[..|contents|] == contents
    ensures LogAll(contents, clock, msgs, n) == contents + Render(Stamped(clock, msgs, n))
  {
    if n == 0 {
      assert Stamped(clock, msgs, n) == [];
      assert contents + [] == contents;
    } else {
      var k := n - 1;
      LogAllAppends(contents, clock, msgs, k);
      var line := clock(k) + Separator + msgs[k];
      assert Stamped(clock, msgs, n) == Stamped(clock, msgs, k) + [line];
      RenderAppend(Stamped(clock, msgs, k), line);
      var r := Render(Stamped(clock, msgs, k));
      assert LogAll(contents, clock, msgs, n) == (contents + r) + (line + "\n");
      assert (contents + r) + (line + "\n") == contents + (r + line + "\n");
    }
  }

  /** Read back line by line, a log of single-line entries after a sequence
      of calls is its earlier lines followed by one stamped line per call. */
  lemma LogAllLines(lines: seq<string>, clock: nat -> string, msgs: seq<string>, n: nat)
    requires n <= |msgs|
    requires forall i :: 0 <= i < |lines| ==> '\n' !in lines[i]
    requires forall i :: '\n' !in clock(i)
    requires forall i :: 0 <= i < |msgs| ==> '\n' !in msgs[i]
    ensures Lines(LogAll(Render(lines), clock, msgs, n)) == lines + Stamped(clock, msgs, n)
  {
    var all := lines + Stamped(clock, msgs, n);
    LogAllSpec(lines, clock, msgs, n);
    forall i | 0 <= i < |all| ensures '\n' !in all[i] {
      if i >= |lines| {
        var j := i - |lines|;
        assert all[i] == clock(j) + Separator + msgs[j];
        LineHasNoBreak(clock(j), msgs[j]);
      }
    }
    LinesOfRender(all);
  }
}
