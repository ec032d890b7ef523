/**
 * The line handling of `ysh`, the small shell.  `readcmd` reads one line
 * into a fixed 128-character buffer and overwrites its last character (the
 * newline) with NUL; `runcmd` trims spaces in place and then either stops
 * the shell (`exit`), changes directory (`cd <dir>`) or forks a child that
 * executes the whole trimmed line as its program, with that line as its
 * only argument.  The read loop goes on while a line was read and `runcmd`
 * returned nonzero.
 *
 * Reading from the console, `fork`, `exec`, `wait` and `chdir` are outside
 * the model: a line is an input, and what the shell asks of the operating
 * system is returned as an `Action`.  C strings are character sequences
 * ended by the first NUL.
 */
module Shell {
  import opened Ulib

  /** `buf_size`: the line buffer's size. */
  const BufSize: nat := 128

  const Nul: char := '\0'

  // ---------------------------------------------------------- C strings

  /** The index of the first NUL at or after `i` (`|s|` when there is none). */
  function NulFrom(s: seq<char>, i: nat): (n: nat)
    requires i <= |s|
    decreases |s| - i
    ensures i <= n <= |s|
    ensures forall k :: i <= k < n ==> s[k] != Nul
    ensures n < |s| ==> s[n] == Nul
  {
    if i == |s| || s[i] == Nul then i else NulFrom(s, i + 1)
  }

  /** `strlen`: the index of the first NUL (the length when there is none). */
  function StrLen(s: seq<char>): (n: nat)
    ensures n <= |s|
    ensures forall i :: 0 <= i < n ==> s[i] != Nul
    ensures n < |s| ==> s[n] == Nul
  {
    NulFrom(s, 0)
  }

  /** The C string held at the start of `s`. */
  function CStr(s: seq<char>): string {
    s[..StrLen(s)]
  }

  function Nuls(n: nat): (z: seq<char>)
    ensures |z| == n && forall i :: 0 <= i < n ==> z[i] == Nul
  {
    if n == 0 then [] else [Nul] + Nuls(n - 1)
  }

  /** StrLen is determined by where the first NUL is. */
  lemma StrLenAt(s: seq<char>, n: nat)
    requires n < |s| && s[n] == Nul
    requires forall i :: 0 <= i < n ==> s[i] != Nul
    ensures StrLen(s) == n
  {
  }

  // ------------------------------------------------------------ trimming

  predicate AllSpaces(s: string) {
    forall i :: 0 <= i < |s| ==> s[i] == ' '
  }

  /** The index of the first non-space at or after `i` (`|s|` when none). */
  function SpacesFrom(s: string, i: nat): (k: nat)
    requires i <= |s|
    decreases |s| - i
    ensures i <= k <= |s| && forall j :: i <= j < k ==> s[j] == ' '
    ensures k < |s| ==> s[k] != ' '
  {
    if i == |s| || s[i] != ' ' then i else SpacesFrom(s, i + 1)
  }

  /** One past the last non-space before `e` (0 when none). */
  function SpacesBefore(s: string, e: nat): (k: nat)
    requires e <= |s|
    ensures k <= e && forall j :: k <= j < e ==> s[j] == ' '
    ensures k > 0 ==> s[k - 1] != ' '
  {
    if e == 0 || s[e - 1] != ' ' then e else SpacesBefore(s, e - 1)
  }

  /** The number of spaces the string starts with. */
  function Lead(s: string): (k: nat)
    ensures k <= |s| && forall i :: 0 <= i < k ==> s[i] == ' '
    ensures k < |s| ==> s[k] != ' '
  {
    SpacesFrom(s, 0)
  }

  /** Where the spaces the string ends with begin. */
  function End(s: string): (e: nat)
    ensures e <= |s| && forall i :: e <= i < |s| ==> s[i] == ' '
    ensures e > 0 ==> s[e - 1] != ' '
  {
    SpacesBefore(s, |s|)
  }

  /** Leading spaces removed. */
  function TrimLeft(s: string): string {
    s[Lead(s)..]
  }

  /** Trailing spaces removed. */
  function TrimRight(s: string): string {
    s[..End(s)]
  }

  /**
   * Only the character ' ' counts as white space.  The result neither
   * starts nor ends with a space, and the line is the result with nothing
   * but spaces before and after it.
   */
  function Trim(s: string): (t: string)
    ensures t != [] ==> t[0] != ' ' && t[|t| - 1] != ' '
    ensures Lead(s) + |t| <= |s| && s[Lead(s)..Lead(s) + |t|] == t
    ensures AllSpaces(s[..Lead(s)]) && AllSpaces(s[Lead(s) + |t|..])
  {
    TrimRight(TrimLeft(s))
  }

  /** `Lead` is determined by where the first non-space is. */
  lemma LeadAt(s: string, k: nat)
    requires k <= |s| && forall i :: 0 <= i < k ==> s[i] == ' '
    requires k < |s| ==> s[k] != ' '
    ensures Lead(s) == k
  {
  }

  /** `End` is determined by where the last non-space is. */
  lemma EndAt(s: string, k: nat)
    requires k <= |s| && forall i :: k <= i < |s| ==> s[i] == ' '
    requires k > 0 ==> s[k - 1] != ' '
    ensures End(s) == k
  {
  }

  /**
   * Trim is characterised by its result: whatever is surrounded by spaces
   * and neither starts nor ends with one is the trimmed string.
   */
  lemma TrimUnique(a: string, t: string, b: string)
    requires AllSpaces(a) && AllSpaces(b)
    requires t != [] ==> t[0] != ' ' && t[|t| - 1] != ' '
    requires t == [] ==> b == []
    ensures Trim(a + t + b) == t
  {
    var s := a + t + b;
    LeadAt(s, |a|);
    assert TrimLeft(s) == t + b;
    EndAt(t + b, |t|);
    assert (t + b)[..|t|] == t;
  }

  /** The line's trimmed form sits between its leading and trailing spaces. */
  lemma TrimAt(s: string, a: nat, e: nat)
    requires a < e <= |s| && s[a] != ' ' && s[e - 1] != ' '
    requires forall i :: 0 <= i < a ==> s[i] == ' '
    requires forall i :: e <= i < |s| ==> s[i] == ' '
    ensures Trim(s) == s[a..e]
  {
    LeadAt(s, a);
    EndAt(s[a..], e - a);
  }

  /** Trimming twice is trimming once. */
  lemma TrimIdempotent(s: string)
    ensures Trim(Trim(s)) == Trim(s)
  {
    var t := Trim(s);
    TrimUnique([], t, []);
    assert [] + t + [] == t;
  }

  /** A line trims to nothing exactly when it is all spaces. */
  lemma TrimEmpty(s: string)
    ensures Trim(s) == [] <==> AllSpaces(s)
  {
  }

  // --------------------------------------------------------- dispatching

  /** What `runcmd` asks of the operating system. */
  datatype Action =
    | NoAction
    | ChangeDir(dir: string)       // chdir(dir); a failure is only reported
    | Spawn(argv: seq<string>)     // fork; the child execs argv[0] with argv

  /** `runcmd`'s result: its return value and what it asked for. */
  datatype Outcome =
    | Fault                        // the code reads before the buffer
    | Ran(status: int, action: Action)

  /**
   * The command part of `runcmd` on a trimmed line.  Only "exit" returns 0
   * and asks for nothing; every other path returns 1.  A line starting with
   * "cd " changes to the rest of the line; anything else forks a child that
   * executes the whole line, whose argument vector is the line alone.
   */
  function Dispatch(t: string): (o: Outcome)
    ensures o.Ran?
    ensures o.status == 0 <==> t == "exit"
    ensures o.status != 0 ==> o.status == 1
    ensures o.action.NoAction? <==> t == "exit"
    ensures o.action.ChangeDir? <==> t != "exit" && |t| >= 3 && t[..3] == "cd "
    ensures o.action.ChangeDir? ==> t == "cd " + o.action.dir
    ensures o.action.Spawn? ==> o.action.argv == [t]
  {
    if t == "exit" then Ran(0, NoAction)
    else if |t| >= 3 && t[..3] == "cd " then Ran(1, ChangeDir(t[3..]))
    else Ran(1, Spawn([t]))
  }

  /** The buffer after trimming: trailing spaces of the line become NUL. */
  function Trimmed(b: seq<char>): (r: seq<char>)
    ensures |r| == |b|
  {
    var n, e := StrLen(b), End(CStr(b));
    seq(|b|, k requires 0 <= k < |b| => if e <= k < n then Nul else b[k])
  }

  /** The first loop of `runcmd`: the index of the first non-space. */
  method SkipSpaces(buf: array<char>) returns (cmd: nat)
    requires StrLen(buf[..]) < buf.Length
    ensures cmd <= StrLen(buf[..]) && buf[cmd] != ' '
    ensures forall i :: 0 <= i < cmd ==> buf[i] == ' '
    ensures TrimLeft(CStr(buf[..])) == CStr(buf[..])[cmd..]
  {
    ghost var s := CStr(buf[..]);
    cmd := 0;
    while buf[cmd] == ' '
      invariant cmd <= |s|
      invariant forall i :: 0 <= i < cmd ==> buf[i] == ' '
      decreases |s| - cmd
    {
      cmd := cmd + 1;
    }
    LeadAt(s, cmd);
  }

  /**
   * The trailing-space loop of `runcmd`: from the end of the string
   * backwards, spaces are overwritten with NUL.  It stops at a non-space,
   * or returns -1 when it has stepped off the front of the buffer (where
   * the code as written goes on reading).
   */
  method StripTrailing(buf: array<char>, cmd: nat) returns (c: int)
    requires 0 < StrLen(buf[..]) < buf.Length && cmd <= StrLen(buf[..])
    modifies buf
    ensures -1 <= c < StrLen(old(buf[..]))
    ensures c >= 0 ==> buf[c] != ' '
    ensures forall k :: c < k < StrLen(old(buf[..])) ==> old(buf[k]) == ' '
    ensures forall k :: 0 <= k < buf.Length ==>
      buf[k] == if c < k < StrLen(old(buf[..])) then Nul else old(buf[k])
  {
    ghost var n := StrLen(buf[..]);
    var len := StrLen(buf[cmd..]);
    assert len == n - cmd by {
      StrLenAt(buf[..][cmd..], n - cmd);
    }
    c := cmd + len - 1;
    while buf[c] == ' '
      invariant 0 <= c < n
      invariant forall k :: c < k < n ==> old(buf[k]) == ' '
      invariant forall k :: 0 <= k < buf.Length ==> buf[k] == if c < k < n then Nul else old(buf[k])
      decreases c
    {
      buf[c] := Nul;
      c := c - 1;
      if c < 0 {
        return;
      }
    }
  }

  /** A line whose every character is a space is all spaces. */
  lemma SpacesLine(b: seq<char>)
    requires forall k :: 0 <= k < StrLen(b) ==> b[k] == ' '
    ensures AllSpaces(CStr(b))
  {
    assert forall i :: 0 <= i < StrLen(b) ==> CStr(b)[i] == b[i];
  }

  /**
   * What the two loops of `runcmd` leave when they stop at a non-space `c`
   * with all spaces before `cmd`: the line is not all spaces, the command
   * between them is the trimmed line, and the buffer is `Trimmed`.
   */
  lemma TrimmedShape(b: seq<char>, cmd: nat, c: int, after: seq<char>)
    requires StrLen(b) < |b| && cmd <= StrLen(b) && b[cmd] != ' '
    requires forall i :: 0 <= i < cmd ==> b[i] == ' '
    requires 0 <= c < StrLen(b) && b[c] != ' '
    requires forall k :: c < k < StrLen(b) ==> b[k] == ' '
    requires |after| == |b|
    requires forall k :: 0 <= k < |b| ==> after[k] == if c < k < StrLen(b) then Nul else b[k]
    ensures cmd <= c && !AllSpaces(CStr(b))
    ensures after == Trimmed(b) && after[cmd..c + 1] == Trim(CStr(b))
  {
    assert CStr(b)[c] == b[c];
    TrimmedCommand(b, cmd, c);
    TrimmedBuffer(b, c, after);
    assert after[cmd..c + 1] == b[cmd..c + 1];
  }

  /** The command the two loops of `runcmd` delimit is the trimmed line. */
  lemma TrimmedCommand(b: seq<char>, cmd: nat, c: int)
    requires StrLen(b) < |b| && cmd < StrLen(b) && b[cmd] != ' '
    requires forall i :: 0 <= i < cmd ==> b[i] == ' '
    requires -1 <= c < StrLen(b) && (c >= 0 ==> b[c] != ' ')
    requires forall k :: c < k < StrLen(b) ==> b[k] == ' '
    ensures cmd <= c && Trim(CStr(b)) == b[cmd..c + 1]
  {
    var s := CStr(b);
    assert forall i :: 0 <= i < |s| ==> s[i] == b[i];
    TrimAt(s, cmd, c + 1);
    assert s[cmd..c + 1] == b[cmd..c + 1];
  }

  /** The buffer the trailing loop of `runcmd` leaves is `Trimmed`. */
  lemma TrimmedBuffer(b: seq<char>, c: int, after: seq<char>)
    requires StrLen(b) < |b| && 0 <= c < StrLen(b) && b[c] != ' '
    requires forall k :: c < k < StrLen(b) ==> b[k] == ' '
    requires |after| == |b|
    requires forall k :: 0 <= k < |b| ==> after[k] == if c < k < StrLen(b) then Nul else b[k]
    ensures after == Trimmed(b)
  {
    var s := CStr(b);
    assert forall i :: 0 <= i < |s| ==> s[i] == b[i];
    EndAt(s, c + 1);
    assert forall k :: 0 <= k < |b| ==> after[k] == Trimmed(b)[k];
  }

  /**
   * `runcmd(buf)` as written.  An empty line returns 1 and touches nothing.
   * A line of spaces only makes the trailing-space loop walk back over the
   * leading spaces and read before the buffer: `Fault`.  Any other line
   * has its trailing spaces overwritten with NUL and is dispatched trimmed.
   */
  method RunCmd(buf: array<char>) returns (o: Outcome)
    requires StrLen(buf[..]) < buf.Length
    modifies buf
    ensures CStr(old(buf[..])) == [] ==> o == Ran(1, NoAction) && buf[..] == old(buf[..])
    ensures CStr(old(buf[..])) != [] && AllSpaces(CStr(old(buf[..]))) ==> o == Fault
    ensures !AllSpaces(CStr(old(buf[..]))) ==>
      o == Dispatch(Trim(CStr(old(buf[..])))) && buf[..] == Trimmed(old(buf[..]))
  {
    if buf[0] == Nul {
      return Ran(1, NoAction);
    }
    ghost var b0 := buf[..];
    ghost var s := CStr(b0);
    ghost var n := StrLen(b0);
    assert n > 0 && s != [];
    var cmd := SkipSpaces(buf);
    var c := StripTrailing(buf, cmd);
    if c < 0 {
      // the loop stepped off the front of the buffer
      SpacesLine(b0);
      return Fault;
    }
    TrimmedShape(b0, cmd, c, buf[..]);
    o := Dispatch(buf[cmd..c + 1]);
  }

  /**
   * `runcmd` with the empty-line test made after the leading spaces are
   * skipped, so that a line of spaces is an empty line.  The trailing loop
   * then always stops at a non-space at or after `cmd`.
   */
  method RunCmdChecked(buf: array<char>) returns (o: Outcome)
    requires StrLen(buf[..]) < buf.Length
    modifies buf
    ensures o.Ran?
    ensures AllSpaces(CStr(old(buf[..]))) ==> o == Ran(1, NoAction) && buf[..] == old(buf[..])
    ensures !AllSpaces(CStr(old(buf[..]))) ==>
      o == Dispatch(Trim(CStr(old(buf[..])))) && buf[..] == Trimmed(old(buf[..]))
  {
    ghost var b0 := buf[..];
    ghost var s := CStr(b0);
    ghost var n := StrLen(b0);
    var cmd := SkipSpaces(buf);
    if buf[cmd] == Nul {
      SpacesLine(b0);
      return Ran(1, NoAction);
    }
    var c := StripTrailing(buf, cmd);
    TrimmedShape(b0, cmd, c, buf[..]);
    o := Dispatch(buf[cmd..c + 1]);
  }

  /** `runcmd` as written reads before the buffer on a line of two spaces. */
  method SpacesFault() returns (o: Outcome)
    ensures o == Fault
  {
    var buf := new char[BufSize](i => if i < 2 then ' ' else Nul);
    assert buf[..][2] == Nul;
    assert CStr(buf[..]) == "  " by {
      StrLenAt(buf[..], 2);
    }
    o := RunCmd(buf);
  }

  // ------------------------------------------------------------- reading

  /** What `readcmd` ends with. */
  datatype ReadResult =
    | NoLine       // gets returned null: the loop ends
    | ReadFault    // strlen was 0, so cmd[-1] lies before the buffer
    | Line         // the line is in the buffer

  /** The buffer after `memset` and `gets` copied `line` into it. */
  function Loaded(line: string): (b: seq<char>)
    requires |line| < BufSize
    ensures |b| == BufSize && StrLen(b) == StrLen(line)
  {
    var b := line + Nuls(BufSize - |line|);
    assert StrLen(b) == StrLen(line) by {
      if StrLen(line) == |line| {
        StrLenAt(b, |line|);
      } else {
        StrLenAt(b, StrLen(line));
      }
    }
    b
  }

  /** `memset` and `gets`: `line` is what `gets` stored, or None for null. */
  method Load(buf: array<char>, line: string)
    requires buf.Length == BufSize && |line| < BufSize
    modifies buf
    ensures buf[..] == Loaded(line)
  {
    var i := 0;
    while i < BufSize
      invariant 0 <= i <= BufSize
      invariant forall k :: 0 <= k < i ==> buf[k] == Nul
    {
      buf[i] := Nul;
      i := i + 1;
    }
    i := 0;
    while i < |line|
      invariant 0 <= i <= |line|
      invariant forall k :: 0 <= k < BufSize ==> buf[k] == if k < i then line[k] else Nul
    {
      buf[i] := line[i];
      i := i + 1;
    }
    assert forall k :: 0 <= k < BufSize ==> buf[..][k] == Loaded(line)[k];
  }

  /**
   * `readcmd(buf)` as written: after a successful read it overwrites the
   * last character of the string with NUL, whatever it is.  An empty
   * string makes that write land before the buffer.
   */
  method ReadCmd(buf: array<char>, input: Option<string>) returns (r: ReadResult)
    requires buf.Length == BufSize
    requires input.Some? ==> |input.value| < BufSize
    modifies buf
    ensures input.None? ==> r == NoLine
    ensures input.Some? && StrLen(input.value) == 0 ==> r == ReadFault
    ensures input.Some? && StrLen(input.value) > 0 ==>
      r == Line && buf[..] == Loaded(input.value)[StrLen(input.value) - 1 := Nul]
  {
    if input.None? {
      Load(buf, []);
      return NoLine;
    }
    Load(buf, input.value);
    var n := StrLen(buf[..]);
    if n == 0 {
      return ReadFault;
    }
    buf[n - 1] := Nul;
    return Line;
  }

  /** `line` without its final newline, if it has one. */
  function Chomp(line: string): (t: string)
    ensures t == line || line == t + ['\n']
  {
    if line != [] && line[|line| - 1] == '\n' then line[..|line| - 1] else line
  }

  /**
   * `readcmd` chopping only a trailing newline, as its comment says it
   * does: it never writes outside the buffer, and leaves a line that is
   * not newline-terminated (127 characters, or the last line of the input)
   * whole.
   */
  method ReadCmdChecked(buf: array<char>, input: Option<string>) returns (r: ReadResult)
    requires buf.Length == BufSize
    requires input.Some? ==> |input.value| < BufSize
    modifies buf
    ensures r != ReadFault
    ensures r == NoLine <==> input.None?
    ensures StrLen(buf[..]) < buf.Length
    ensures input.Some? ==> CStr(buf[..]) == Chomp(CStr(input.value))
  {
    if input.None? {
      Load(buf, []);
      return NoLine;
    }
    Load(buf, input.value);
    ghost var s := CStr(input.value);
    assert CStr(buf[..]) == s;
    var n := StrLen(buf[..]);
    if n > 0 && buf[n - 1] == '\n' {
      buf[n - 1] := Nul;
      StrLenAt(buf[..], n - 1);
    }
    return Line;
  }

  /** On an empty read the code as written faults. */
  method EmptyReadFaults() returns (r: ReadResult)
    ensures r == ReadFault
  {
    var buf := new char[BufSize];
    r := ReadCmd(buf, Some([]));
  }

  /** For a newline-terminated line both versions agree. */
  lemma ReadVersionsAgree(line: string)
    requires |line| < BufSize && line != [] && line[|line| - 1] == '\n'
    requires forall i :: 0 <= i < |line| ==> line[i] != Nul
    ensures StrLen(line) == |line|
    ensures StrLen(line) > 0 && CStr(Loaded(line)[StrLen(line) - 1 := Nul]) == Chomp(CStr(line))
  {
    var b := Loaded(line)[|line| - 1 := Nul];
    StrLenAt(b, |line| - 1);
    assert line[..|line|] == line;
  }

  // ----------------------------------------------------------- main loop

  /** What the shell does with one line it has read. */
  function Respond(line: string): (o: Outcome)
    ensures o.Ran?
  {
    Reply(Trim(Chomp(CStr(line))))
  }

  /** `runcmd` on a line that trims to `t`. */
  function Reply(t: string): (o: Outcome)
    ensures o.Ran?
  {
    if t == [] then Ran(1, NoAction) else Dispatch(t)
  }

  /** What one turn of the loop yields: None for a null read. */
  function Turned(input: Option<string>): (o: Option<Outcome>)
    ensures o.Some? ==> o.value.Ran?
  {
    if input.None? then None else Some(Respond(input.value))
  }

  /** What each turn of the loop yields over a script of inputs. */
  function Replies(inputs: seq<Option<string>>): (r: seq<Option<Outcome>>)
    ensures |r| == |inputs| && AllRan(r)
  {
    if inputs == [] then [] else [Turned(inputs[0])] + Replies(inputs[1..])
  }

  lemma {:induction false} RepliesAt(inputs: seq<Option<string>>, k: nat)
    requires k < |inputs|
    ensures Replies(inputs)[k] == Turned(inputs[k])
  {
    if k > 0 {
      RepliesAt(inputs[1..], k - 1);
    }
  }

  /** Every line read was run to completion. */
  predicate AllRan(outs: seq<Option<Outcome>>) {
    forall i :: 0 <= i < |outs| && outs[i].Some? ==> outs[i].value.Ran?
  }

  /**
   * The read loop over the turns' results: the actions taken and the number
   * of turns made.  It stops at the first null read or the first line that
   * returns 0; running out of script also ends it.
   */
  function Stop(outs: seq<Option<Outcome>>): (seq<Action>, nat)
    requires AllRan(outs)
  {
    if outs == [] then ([], 0)
    else if outs[0].None? then ([], 1)
    else
      var o := outs[0].value;
      if o.status == 0 then ([o.action], 1)
      else
        var rest := Stop(outs[1..]);
        ([o.action] + rest.0, 1 + rest.1)
  }

  /** The loop of `main` over a script of inputs. */
  function SessionSpec(inputs: seq<Option<string>>): (seq<Action>, nat) {
    Stop(Replies(inputs))
  }

  lemma RespondMatchesRun(b: seq<char>, line: string)
    requires StrLen(b) < |b| && CStr(b) == Chomp(CStr(line))
    ensures AllSpaces(CStr(b)) ==> Respond(line) == Ran(1, NoAction)
    ensures !AllSpaces(CStr(b)) ==> Respond(line) == Dispatch(Trim(CStr(b)))
  {
    TrimEmpty(CStr(b));
  }

  /**
   * One turn of the loop of `main`: the corrected `readcmd` followed, when
   * a line was read, by the corrected `runcmd`.
   */
  method Turn(buf: array<char>, input: Option<string>) returns (o: Option<Outcome>)
    requires buf.Length == BufSize
    requires input.Some? ==> |input.value| < BufSize
    modifies buf
    ensures o == Turned(input)
  {
    var r := ReadCmdChecked(buf, input);
    if r == NoLine {
      return None;
    }
    ghost var b := buf[..];
    var out := RunCmdChecked(buf);
    assert out == Respond(input.value) by {
      RespondMatchesRun(b, input.value);
    }
    return Some(out);
  }

  /** A line as `gets` stores it when it reads a whole line. */
  predicate NewlineLine(line: string) {
    && line != [] && line[|line| - 1] == '\n'
    && forall i :: 0 <= i < |line| ==> line[i] != Nul
  }

  /**
   * One turn of the loop of `main` with `readcmd` and `runcmd` as written.
   * A null read ends the loop and an empty read faults.  On a whole line it
   * does what the corrected turn does, except that a line of spaces makes
   * `runcmd` read before the buffer.
   */
  method TurnAsWritten(buf: array<char>, input: Option<string>) returns (o: Option<Outcome>)
    requires buf.Length == BufSize
    requires input.Some? ==> |input.value| < BufSize
    modifies buf
    ensures input.None? ==> o == None
    ensures input.Some? && StrLen(input.value) == 0 ==> o == Some(Fault)
    ensures input.Some? && NewlineLine(input.value) ==>
      var t := Chomp(input.value);
      o == if t != [] && AllSpaces(t) then Some(Fault) else Turned(input)
  {
    var r := ReadCmd(buf, input);
    if r == NoLine {
      return None;
    }
    if r == ReadFault {
      return Some(Fault);
    }
    var line := input.value;
    var n := StrLen(line);
    assert buf[n - 1] == Nul;
    assert StrLen(buf[..]) < n;
    ghost var b := buf[..];
    var out := RunCmd(buf);
    if NewlineLine(line) {
      ReadVersionsAgree(line);
      assert CStr(line) == line;
      RespondMatchesRun(b, line);
    }
    return Some(out);
  }

  /**
   * The `while ((cmd = readcmd(buf)) && runcmd(cmd));` loop of `main`,
   * over the corrected `readcmd` and `runcmd`.
   */
  method Session(inputs: seq<Option<string>>) returns (actions: seq<Action>, consumed: nat)
    requires forall i :: 0 <= i < |inputs| && inputs[i].Some? ==> |inputs[i].value| < BufSize
    ensures (actions, consumed) == SessionSpec(inputs)
  {
    var buf := new char[BufSize];
    ghost var outs := Replies(inputs);
    actions, consumed := [], 0;
    assert outs[0..] == outs && [] + Stop(outs).0 == Stop(outs).0;
    while consumed < |inputs|
      invariant consumed <= |inputs|
      invariant Stop(outs).0 == actions + Stop(outs[consumed..]).0
      invariant Stop(outs).1 == consumed + Stop(outs[consumed..]).1
    {
      var o := Turn(buf, inputs[consumed]);
      RepliesAt(inputs, consumed);
      StopNext(outs, consumed, actions);
      if o.None? {
        return actions, consumed + 1;
      }
      actions, consumed := actions + [o.value.action], consumed + 1;
      if o.value.status == 0 {
        return;
      }
    }
    StopEnd(outs, actions);
  }

  /** How the loop's specification goes on after the turn at `k`. */
  lemma StopNext(outs: seq<Option<Outcome>>, k: nat, actions: seq<Action>)
    requires AllRan(outs) && k < |outs|
    requires Stop(outs).0 == actions + Stop(outs[k..]).0
    requires Stop(outs).1 == k + Stop(outs[k..]).1
    ensures outs[k].None? ==> Stop(outs) == (actions, k + 1)
    ensures outs[k].Some? && outs[k].value.status == 0 ==>
      Stop(outs) == (actions + [outs[k].value.action], k + 1)
    ensures outs[k].Some? && outs[k].value.status != 0 ==>
      Stop(outs).0 == actions + [outs[k].value.action] + Stop(outs[k + 1..]).0 &&
      Stop(outs).1 == k + 1 + Stop(outs[k + 1..]).1
  {
    var rest := outs[k..];
    assert rest[0] == outs[k] && rest[1..] == outs[k + 1..];
    assert actions + [] == actions;
    if outs[k].Some? && outs[k].value.status != 0 {
      var a := [outs[k].value.action];
      assert actions + (a + Stop(rest[1..]).0) == actions + a + Stop(rest[1..]).0;
    }
  }

  /** At the end of the script nothing is left to do. */
  lemma StopEnd(outs: seq<Option<Outcome>>, actions: seq<Action>)
    requires AllRan(outs)
    requires Stop(outs).0 == actions + Stop(outs[|outs|..]).0
    requires Stop(outs).1 == |outs| + Stop(outs[|outs|..]).1
    ensures Stop(outs) == (actions, |outs|)
  {
    assert outs[|outs|..] == [];
    assert actions + [] == actions;
  }

  /** A line that does not stop the shell. */
  predicate Continues(input: Option<string>) {
    input.Some? && Respond(input.value).status != 0
  }

  /** The line "exit\n" stops the shell. */
  lemma ExitLine()
    ensures Respond("exit\n") == Ran(0, NoAction)
  {
    assert CStr("exit\n") == "exit\n" by {
      StrLenAt("exit\n" + [Nul], 5);
    }
    assert Chomp("exit\n") == "exit";
    TrimUnique([], "exit", []);
    assert [] + "exit" + [] == "exit";
  }

  /** The loop makes exactly one turn more than the turns before a 0. */
  lemma {:induction false} StopAt(outs: seq<Option<Outcome>>, k: nat)
    requires AllRan(outs) && k < |outs|
    requires forall i :: 0 <= i < k ==> outs[i].Some? && outs[i].value.status != 0
    requires outs[k].Some? && outs[k].value.status == 0
    ensures Stop(outs).1 == k + 1
  {
    if k > 0 {
      assert AllRan(outs[1..]);
      StopAt(outs[1..], k - 1);
    }
  }

  /** Nothing after an "exit" line is read. */
  lemma ExitEndsSession(pre: seq<Option<string>>, post: seq<Option<string>>)
    requires forall i :: 0 <= i < |pre| ==> Continues(pre[i])
    ensures SessionSpec(pre + [Some("exit\n")] + post).1 == |pre| + 1
  {
    var s := pre + [Some("exit\n")] + post;
    var outs := Replies(s);
    forall i | 0 <= i < |pre|
      ensures outs[i].Some? && outs[i].value.status != 0
    {
      RepliesAt(s, i);
      assert s[i] == pre[i];
    }
    RepliesAt(s, |pre|);
    assert s[|pre|] == Some("exit\n");
    ExitLine();
    StopAt(outs, |pre|);
  }
}
