/**
 * The string-level decisions of the shell (hw3/shell.c): which builtin a line
 * names, how a line with `<`, `>` or `|` is cut into argument vectors and file
 * names, and which executable paths are tried, in order, for a program. The
 * tokenizer is given: a line is its sequence of tokens, and `tokens_get_token`
 * returns NULL past the end. Processes, pipes and file descriptors are not
 * modelled; the working directory and `chdir` are parameters.
 */
module Shell {
  import opened Wrappers
  import opened Tally
  import opened MaximalRuns

  type Tokens = seq<string>

  /** The names of `cmd_table`, in table order. */
  const CMD_TABLE: seq<string> := ["?", "exit", "pwd", "cd"]

  /** `tokens_get_token`: the token at `i`, NULL past the end. */
  function TokenAt(ts: Tokens, i: nat): (t: Option<string>)
    ensures t.Some? <==> i < |ts|
    ensures t.Some? ==> t.value == ts[i]
  {
    if i < |ts| then Some(ts[i]) else None
  }

  // ---- Builtins ----

  /** `lookup`: the index of the first table entry named `cmd`, -1 when there is
      none or `cmd` is NULL. */
  function Lookup(cmd: Option<string>): (r: int)
    ensures -1 <= r < |CMD_TABLE|
    ensures r == -1 <==> cmd.None? || cmd.value !in CMD_TABLE
    ensures r >= 0 ==> cmd == Some(CMD_TABLE[r])
    ensures r >= 0 ==> forall j :: 0 <= j < r ==> CMD_TABLE[j] != cmd.value
  {
    if cmd.None? then -1
    else match FindFrom(CMD_TABLE, (name: string) => name == cmd.value, 0)
      case Some(i) => i
      case None => -1
  }

  /** The table maps `?`, `exit`, `pwd` and `cd` to 0 to 3, and nothing else to
      an entry. */
  lemma TableIndices()
    ensures Lookup(Some("?")) == 0 && Lookup(Some("exit")) == 1
    ensures Lookup(Some("pwd")) == 2 && Lookup(Some("cd")) == 3
    ensures Lookup(None) == -1 && Lookup(Some("ls")) == -1
  {
    assert "?" == CMD_TABLE[0] && "exit" == CMD_TABLE[1];
    assert "pwd" == CMD_TABLE[2] && "cd" == CMD_TABLE[3];
    assert "ls" != CMD_TABLE[0] && "ls" != CMD_TABLE[1];
    assert "ls" != CMD_TABLE[2] && "ls" != CMD_TABLE[3];
  }

  /** What the shell's process needs from the system: its working directory
      (None when `getcwd` fails) and whether `chdir` to a token succeeds. */
  datatype Env = Env(cwd: Option<string>, chdirOk: Option<string> -> bool)

  /** A builtin either returns to the loop or ends the shell. */
  datatype Outcome = ShellExit(status: int) | Returned(value: int)

  /** The builtin at table index `k`, run on a line in the shell's own process. */
  function RunBuiltin(k: nat, ts: Tokens, env: Env): (r: Outcome)
    requires k < |CMD_TABLE|
    ensures r.ShellExit? <==> CMD_TABLE[k] == "exit"
    ensures r.ShellExit? ==> r.status == 0
    ensures r.Returned? ==> r.value == 1 || r.value == -1
    ensures CMD_TABLE[k] == "?" ==> r == Returned(1)
    ensures CMD_TABLE[k] == "pwd" ==> (r == Returned(-1) <==> env.cwd.None?)
    ensures CMD_TABLE[k] == "cd" ==> (r == Returned(1) <==> env.chdirOk(TokenAt(ts, 1)))
  {
    if k == 0 then Returned(1)
    else if k == 1 then ShellExit(0)
    else if k == 2 then (if env.cwd.None? then Returned(-1) else Returned(1))
    else if env.chdirOk(TokenAt(ts, 1)) then Returned(1) else Returned(-1)
  }

  // ---- Pipelines ----

  /** One command of a pipeline: its argument vector (the NULL after it is
      implicit) and whether its standard output goes into the pipe. */
  datatype Segment = Segment(argv: Tokens, toPipe: bool)

  /** The first `|` token, or the token count when there is none. */
  function PipeAt(ts: Tokens): (pos: nat)
    ensures pos <= |ts|
    ensures pos < |ts| ==> ts[pos] == "|"
    ensures forall k :: 0 <= k < pos ==> ts[k] != "|"
  {
    match FindFrom(ts, (t: string) => t == "|", 0)
    case Some(i) => i
    case None => |ts|
  }

  /**
   * The commands `exec_pipe` runs, from its first call at token 0: each one is
   * the tokens up to the next `|`, and the recursion goes on after that `|` until
   * the segment reaches the end of the line. Only the last segment keeps its
   * standard output.
   */
  function Segments(ts: Tokens): (r: seq<Segment>)
    ensures |r| >= 1
    decreases |ts|
  {
    var pos := PipeAt(ts);
    if pos == |ts| then [Segment(ts, false)]
    else [Segment(ts[..pos], true)] + Segments(ts[pos + 1..])
  }

  function Argvs(ss: seq<Segment>): (r: seq<Tokens>)
    ensures |r| == |ss| && forall j :: 0 <= j < |ss| ==> r[j] == ss[j].argv
  {
    seq(|ss|, j requires 0 <= j < |ss| => ss[j].argv)
  }

  /** Every segment is free of `|`, and exactly the segments before the last send
      their output into a pipe. */
  predicate WellCut(r: seq<Segment>) {
    forall j :: 0 <= j < |r| ==> "|" !in r[j].argv && (r[j].toPipe <==> j < |r| - 1)
  }

  lemma {:induction false} SegmentsShape(ts: Tokens)
    ensures WellCut(Segments(ts))
    decreases |ts|
  {
    var pos := PipeAt(ts);
    var r := Segments(ts);
    if pos < |ts| {
      var rest := Segments(ts[pos + 1..]);
      SegmentsShape(ts[pos + 1..]);
      assert r == [Segment(ts[..pos], true)] + rest;
      forall j | 1 <= j < |r|
        ensures "|" !in r[j].argv && (r[j].toPipe <==> j < |r| - 1)
      {
        assert |r| == |rest| + 1 && r[j] == rest[j - 1];
      }
    }
  }

  /** Putting the `|` tokens back between the segments gives the line again. */
  lemma {:induction false} SegmentsJoin(ts: Tokens)
    ensures JoinWith(Argvs(Segments(ts)), "|") == ts
    decreases |ts|
  {
    var pos := PipeAt(ts);
    var r := Segments(ts);
    if pos < |ts| {
      var rest := Segments(ts[pos + 1..]);
      SegmentsJoin(ts[pos + 1..]);
      assert Argvs(r) == [ts[..pos]] + Argvs(rest);
      assert Argvs(r)[1..] == Argvs(rest);
      assert ts == ts[..pos] + ["|"] + ts[pos + 1..];
    } else {
      assert r == [Segment(ts, false)];
      assert Argvs(r) == [ts];
      assert JoinWith([ts], "|") == ts;
    }
  }

  /** A `|` between commands without one is the first `|` of the line. */
  lemma PipeAtJoin(x: Tokens, rest: Tokens)
    requires "|" !in x
    ensures PipeAt(x) == |x|
    ensures PipeAt(x + ["|"] + rest) == |x|
  {
    assert (x + ["|"] + rest)[|x|] == "|";
  }

  /** Conversely, commands without `|` joined by `|` are split back into exactly
      those commands. */
  lemma {:induction false} SegmentsOfJoin(xs: seq<Tokens>)
    requires |xs| >= 1
    requires forall j :: 0 <= j < |xs| ==> "|" !in xs[j]
    ensures Argvs(Segments(JoinWith(xs, "|"))) == xs
    decreases |xs|
  {
    var ts := JoinWith(xs, "|");
    var rest := JoinWith(xs[1..], "|");
    PipeAtJoin(xs[0], rest);
    if |xs| == 1 {
      assert Segments(ts) == [Segment(xs[0], false)] by {
        assert ts == xs[0];
      }
      assert xs == [xs[0]];
    } else {
      var n := |xs[0]|;
      assert Segments(ts) == [Segment(xs[0], true)] + Segments(rest) by {
        assert ts == xs[0] + ["|"] + rest;
        assert ts[n + 1..] == rest && ts[..n] == xs[0];
      }
      SegmentsOfJoin(xs[1..]);
      assert Argvs(Segments(ts)) == [xs[0]] + Argvs(Segments(rest));
      assert xs == [xs[0]] + xs[1..];
    }
  }

  // ---- What a line does ----

  datatype Direction = In | Out

  /** The decision `main` takes for a line. */
  datatype Action =
    | Builtin(index: nat)
    | Redirect(dir: Direction, argv: Tokens, file: Option<string>)
    | Pipeline(segments: seq<Segment>)
    | Program(argv: Tokens)

  predicate Special(t: string) {
    t == "<" || t == ">" || t == "|"
  }

  /**
   * `main`'s handling of a line. A builtin is chosen from token 0 alone and runs
   * without a fork. Otherwise the first `<`, `>` or `|` decides: a redirection
   * takes the tokens before it as the command and the token after it as the
   * file name (NULL when the line ends there); a pipe hands the whole line to
   * `exec_pipe`. (`number_of_pipe` is never raised, so the redirection tests
   * always see it at 0.) A line with none of them runs as one program.
   */
  function Classify(ts: Tokens): (a: Action)
    ensures a.Builtin? <==> |ts| > 0 && ts[0] in CMD_TABLE
    ensures a.Builtin? ==> a.index < |CMD_TABLE| && CMD_TABLE[a.index] == ts[0]
    ensures a.Redirect? ==>
      && |a.argv| < |ts|
      && ts[|a.argv|] == (if a.dir == In then "<" else ">")
      && a.argv == ts[..|a.argv|]
      && (forall k :: 0 <= k < |a.argv| ==> !Special(ts[k]))
      && a.file == TokenAt(ts, |a.argv| + 1)
    ensures a.Pipeline? ==>
      && a.segments == Segments(ts)
      && exists p :: 0 <= p < |ts| && ts[p] == "|" && forall k :: 0 <= k < p ==> !Special(ts[k])
    ensures a.Program? ==> a.argv == ts && forall k :: 0 <= k < |ts| ==> !Special(ts[k])
  {
    var k := Lookup(TokenAt(ts, 0));
    if k >= 0 then Builtin(k)
    else match FindFrom(ts, Special, 0)
      case None => Program(ts)
      case Some(i) =>
        if ts[i] == "<" then Redirect(In, ts[..i], TokenAt(ts, i + 1))
        else if ts[i] == ">" then Redirect(Out, ts[..i], TokenAt(ts, i + 1))
        else Pipeline(Segments(ts))
  }

  /** Two lines with the same first token pick the same builtin, whatever
      follows it. */
  lemma BuiltinFromFirstToken(ts: Tokens, us: Tokens)
    requires |ts| > 0 && |us| > 0 && ts[0] == us[0]
    ensures Classify(ts).Builtin? <==> Classify(us).Builtin?
    ensures Classify(ts).Builtin? ==> Classify(ts) == Classify(us)
  {
  }

  // ---- Executable search ----

  predicate NotColon(c: char) {
    c != ':'
  }

  /** The directories `strtok(path, ":")` yields: the maximal stretches without
      `:`, so empty entries are skipped. No PATH gives none. */
  function Dirs(path: Option<string>): seq<string> {
    match path
    case None => []
    case Some(p) => Runs(p, NotColon)
  }

  /**
   * The paths `execv` is tried on for a program, in order: the program name as
   * given, then each PATH directory followed by `/` and the name, as
   * `exec_full_path` builds them.
   */
  function Candidates(prog: string, path: Option<string>): (r: seq<string>)
    ensures |r| == 1 + |Dirs(path)|
  {
    var ds := Dirs(path);
    [prog] + seq(|ds|, j requires 0 <= j < |ds| => ds[j] + "/" + prog)
  }

  /** The first candidate is the bare name; the one after it for each PATH
      directory, in order, is that directory (non-empty, without `:`) followed by
      `/` and the name. */
  lemma CandidatesShape(prog: string, path: Option<string>)
    ensures Candidates(prog, path)[0] == prog
    ensures forall j :: 0 <= j < |Dirs(path)| ==>
      && Dirs(path)[j] != [] && AllIn(Dirs(path)[j], NotColon)
      && Candidates(prog, path)[j + 1] == Dirs(path)[j] + "/" + prog
  {
    if path.Some? {
      RunsAreRuns(path.value, NotColon);
    }
  }

  /** A PATH made of non-empty directories joined by `:` gives one candidate per
      directory, in PATH order, after the bare name. */
  lemma CandidatesOfPath(prog: string, dirs: seq<string>)
    requires forall j :: 0 <= j < |dirs| ==> dirs[j] != [] && AllIn(dirs[j], NotColon)
    ensures var r := Candidates(prog, Some(JoinWith(dirs, ':')));
      && |r| == |dirs| + 1 && r[0] == prog
      && forall j :: 0 <= j < |dirs| ==> r[j + 1] == dirs[j] + "/" + prog
  {
    RunsOfJoin(dirs, ':', NotColon);
    var r := Candidates(prog, Some(JoinWith(dirs, ':')));
    assert Dirs(Some(JoinWith(dirs, ':'))) == dirs;
    forall j | 0 <= j < |dirs|
      ensures r[j + 1] == dirs[j] + "/" + prog
    {
    }
  }

  /** Empty PATH entries are skipped: a `:` at the start of PATH or right after
      another `:` yields no directory, and neither does a trailing one. */
  lemma EmptyEntrySkipped(p: string, q: string)
    requires EndsOutside(p, NotColon)
    ensures Dirs(Some(p + [':'] + q)) == Dirs(Some(p + q))
  {
    assert p + [':'] + q == p + ([':'] + q);
    RunsAppend(p, [':'] + q, NotColon);
    RunsAppend(p, q, NotColon);
    assert ([':'] + q)[1..] == q;
  }
}
