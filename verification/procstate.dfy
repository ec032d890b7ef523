/**
 * The `ps` command and the `pstate` system call it invokes.
 *
 * User side: each command-line argument is either a process id (a nonzero
 * string of decimal digits) or one of the letters S, R, X, Z, which `ps`
 * encodes as the negated state bits -1, -2, -4, -8.  The values go into six
 * integer slots, unused slots staying 0.
 *
 * Kernel side: `sys_pstate` reads the six slots in order, ORs the negation
 * of every negative one into an `unsigned char` option mask, ignores the
 * positive ones (process ids) and stops at the first 0.
 */
module ProcState {
  import opened Ulib

  /** A system call takes up to six arguments. */
  const MaxArgs: nat := 6

  // t_arg_type: the user-side encoding of the state letters
  const SleepArg: int := -1
  const RunnableArg: int := -2
  const ExecutingArg: int := -4
  const ZombieArg: int := -8

  // t_state_type: the kernel-side option bits
  const SleepBit: bv8 := 1
  const RunnableBit: bv8 := 2
  const ExecutingBit: bv8 := 4
  const ZombieBit: bv8 := 8

  /** The character at `k` of a C string, '\0' past its end. */
  function CharAt(s: string, k: nat): char {
    if k < |s| then s[k] else '\0'
  }

  predicate IsStateLetter(c: char) {
    c == 'S' || c == 'R' || c == 'X' || c == 'Z'
  }

  /** A C string: no NUL inside it, since the first NUL ends it. */
  predicate IsCString(s: string) {
    forall k :: 0 <= k < |s| ==> s[k] != '\0'
  }

  /** The argument is exactly one state letter. */
  predicate IsOption(s: string) {
    |s| == 1 && IsStateLetter(s[0])
  }

  /** The `switch` of `ps`: a state letter's encoding. */
  function LetterCode(c: char): (v: int)
    requires IsStateLetter(c)
    ensures v < 0
  {
    match c
    case 'S' => SleepArg
    case 'R' => RunnableArg
    case 'X' => ExecutingArg
    case 'Z' => ZombieArg
  }

  /** The kernel's option bit for a state letter. */
  function StateBit(c: char): bv8
    requires IsStateLetter(c)
  {
    match c
    case 'S' => SleepBit
    case 'R' => RunnableBit
    case 'X' => ExecutingBit
    case 'Z' => ZombieBit
  }

  /** `is_valid_num`: every character is a decimal digit (so "" is valid). */
  method IsValidNum(s: string) returns (ok: bool)
    ensures ok <==> AllDigits(s)
  {
    var k := 0;
    while k < |s|
      invariant 0 <= k <= |s|
      invariant AllDigits(s[..k])
    {
      if s[k] < '0' || s[k] > '9' {
        return false;
      }
      assert s[..k + 1] == s[..k] + [s[k]];
      k := k + 1;
    }
    assert s[..k] == s;
    return true;
  }

  /**
   * The value `ps` stores for one argument: a number when `atoi` is nonzero
   * and the string is all digits, the letter's code for a lone state
   * letter, and None (help and exit status 1) otherwise.
   */
  function ArgValue(s: string): (r: Option<int>)
    ensures r.Some? <==> IsOption(s) || (AllDigits(s) && Decimal(s) != 0)
    ensures IsOption(s) ==> r.value == LetterCode(s[0]) < 0
    ensures AllDigits(s) && Decimal(s) != 0 ==> r.value == Decimal(s) > 0
  {
    if Atoi(s) != 0 && AllDigits(s) then Some(Atoi(s))
    else if IsOption(s) then Some(LetterCode(s[0]))
    else None
  }

  predicate AllAccepted(words: seq<string>) {
    forall i :: 0 <= i < |words| ==> ArgValue(words[i]).Some?
  }

  /** The stored values of accepted arguments, in order. */
  function Values(words: seq<string>): (vs: seq<int>)
    requires AllAccepted(words)
    ensures |vs| == |words|
  {
    if words == [] then [] else [ArgValue(words[0]).value] + Values(words[1..])
  }

  function Zeros(n: nat): (z: seq<int>)
    ensures |z| == n && forall k :: 0 <= k < n ==> z[k] == 0
  {
    if n == 0 then [] else [0] + Zeros(n - 1)
  }

  /** The user arguments, `argv` without the program name. */
  function UserArgs(argv: seq<string>): seq<string> {
    if argv == [] then [] else argv[1..]
  }

  /** What the argument loop of `ps` ends with. */
  datatype Parsed = Help | Args(args: seq<int>)

  /** The argument handling of `ps`, as a function of `argv`. */
  function ParseSpec(argv: seq<string>): Parsed {
    var words := UserArgs(argv);
    if |argv| > MaxArgs + 1 then Help
    else if !AllAccepted(words) then Help
    else Args(Values(words) + Zeros(MaxArgs - |words|))
  }

  lemma {:induction false} ValuesAt(words: seq<string>, k: nat)
    requires AllAccepted(words) && k < |words|
    ensures Values(words)[k] == ArgValue(words[k]).value
  {
    if k > 0 {
      ValuesAt(words[1..], k - 1);
    }
  }

  /**
   * The argument loop of `ps`: more than six user arguments, or any
   * argument that is neither a number nor a lone state letter, gives help;
   * otherwise the i-th argument goes to slot i - 1 and the rest stay 0.
   */
  method ParseArgs(argv: seq<string>) returns (r: Parsed)
    requires forall m :: 0 <= m < |argv| ==> IsCString(argv[m])
    ensures r == ParseSpec(argv)
    ensures r.Args? ==> |r.args| == MaxArgs
  {
    if |argv| > MaxArgs + 1 {
      return Help;
    }
    var args := new int[MaxArgs](_ => 0);
    var i := 1;
    while i < |argv|
      invariant 1 <= i <= if |argv| == 0 then 1 else |argv|
      invariant forall m :: 1 <= m < i ==> ArgValue(argv[m]).Some?
      invariant forall k :: 0 <= k < MaxArgs ==>
        args[k] == if k + 1 < i then ArgValue(argv[k + 1]).value else 0
    {
      var a := argv[i];
      var intVal := Atoi(a);
      var valid := IsValidNum(a);
      if intVal != 0 && valid {
        args[i - 1] := intVal;
      } else if IsStateLetter(CharAt(a, 0)) && CharAt(a, 1) == '\0' {
        match a[0]
        case 'S' => args[i - 1] := SleepArg;
        case 'R' => args[i - 1] := RunnableArg;
        case 'X' => args[i - 1] := ExecutingArg;
        case 'Z' => args[i - 1] := ZombieArg;
      } else {
        RefusedWord(argv, i);
        return Help;
      }
      i := i + 1;
    }
    FilledSlots(argv, args[..]);
    return Args(args[..]);
  }

  /** One refused word makes the whole command line a request for help. */
  lemma RefusedWord(argv: seq<string>, i: nat)
    requires 1 <= i < |argv| && ArgValue(argv[i]).None?
    ensures ParseSpec(argv) == Help
  {
    assert UserArgs(argv)[i - 1] == argv[i];
  }

  /** When every word is accepted, slot k holds the value of word k + 1, or 0. */
  lemma FilledSlots(argv: seq<string>, slots: seq<int>)
    requires |argv| <= MaxArgs + 1 && |slots| == MaxArgs
    requires forall m :: 1 <= m < |argv| ==> ArgValue(argv[m]).Some?
    requires forall k :: 0 <= k < MaxArgs ==>
      slots[k] == if k + 1 < |argv| then ArgValue(argv[k + 1]).value else 0
    ensures ParseSpec(argv) == Args(slots)
  {
    var words := UserArgs(argv);
    assert AllAccepted(words) by {
      forall m | 0 <= m < |words| ensures ArgValue(words[m]).Some? {
        assert words[m] == argv[m + 1];
      }
    }
    forall k | 0 <= k < MaxArgs
      ensures slots[k] == (Values(words) + Zeros(MaxArgs - |words|))[k]
    {
      if k < |words| {
        ValuesAt(words, k);
        assert words[k] == argv[k + 1];
      }
    }
  }

  /** "0" and "00" are all digits but `atoi` gives 0: they are refused. */
  lemma ZeroIsNotAPid()
    ensures ArgValue("0") == None && ArgValue("00") == None
  {
    DecimalZero("0");
    DecimalZero("00");
  }

  /** A longer word starting with a state letter is refused. */
  lemma LongLetterWordRefused(s: string)
    requires |s| >= 2 && IsStateLetter(s[0])
    ensures ArgValue(s) == None
  {
    assert !IsDigit(s[0]);
    assert DigitRun(s) == 0;
  }

  // ---------------------------------------------------------------- kernel

  /** Truncation of a nonnegative int to an `unsigned char`. */
  function Low8(x: int): bv8
    requires x >= 0
  {
    (x % 256) as bv8
  }

  /** What one argument contributes to `options`. */
  function ArgBits(arg: int): bv8 {
    if arg < 0 then Low8(-arg) else 0
  }

  /**
   * The mask `sys_pstate` accumulates: the OR of the contributions of the
   * arguments before the first 0.
   */
  function OptionBits(args: seq<int>): (r: bv8)
    ensures forall k :: 0 <= k < |args| && NoZeroThrough(args, k) ==> Holds(r, ArgBits(args[k]))
    ensures (forall k :: 0 <= k < |args| && NoZeroThrough(args, k) ==> args[k] > 0) ==> r == 0
  {
    if args == [] || args[0] == 0 then 0
    else
      var a, rest := ArgBits(args[0]), OptionBits(args[1..]);
      assert forall k :: 0 <= k < |args| && NoZeroThrough(args, k) ==> Holds(a | rest, ArgBits(args[k])) by {
        forall k | 0 <= k < |args| && NoZeroThrough(args, k)
          ensures Holds(a | rest, ArgBits(args[k]))
        {
          if k == 0 {
            OrHolds(a, rest, 0);
          } else {
            assert NoZeroThrough(args[1..], k - 1) && args[1..][k - 1] == args[k];
            OrHolds(a, rest, ArgBits(args[k]));
          }
        }
      }
      a | rest
  }

  /** Every bit of `x` is set in `r`. */
  predicate Holds(r: bv8, x: bv8) {
    r & x == x
  }

  lemma OrHolds(a: bv8, b: bv8, x: bv8)
    requires Holds(b, x)
    ensures Holds(a | b, x) && Holds(a | b, a)
  {
  }

  /** No argument up to and including position `k` is 0. */
  predicate NoZeroThrough(args: seq<int>, k: nat)
    requires k < |args|
  {
    forall m :: 0 <= m <= k ==> args[m] != 0
  }

  /**
   * `sys_pstate`: reads the first six argument registers and returns 0.
   * `regs` stands for the argument registers `argint` reads.
   */
  method SysPState(regs: seq<int>) returns (ret: int, options: bv8)
    requires |regs| >= MaxArgs
    ensures ret == 0
    ensures options == OptionBits(regs[..MaxArgs])
  {
    var args := regs[..MaxArgs];
    options := 0;
    var i := 0;
    AccumulatedStart(args);
    while i < MaxArgs
      invariant 0 <= i <= MaxArgs
      invariant Accumulated(args, i, options)
    {
      var arg := args[i];
      if arg < 0 {
        AccumulateStep(args, i, options);
        options := options | ArgBits(arg);
      } else if arg > 0 {
        // a process id: reported, not part of the mask
        PidStep(args, i, options);
      } else {
        ZeroStep(args, i, options);
        break;
      }
      i := i + 1;
    }
    if i == MaxArgs {
      AccumulatedAll(args, options);
    }
    return 0, options;
  }

  /** The loop of `sys_pstate` has ORed into `options` the contributions before `i`. */
  predicate Accumulated(args: seq<int>, i: nat, options: bv8)
    requires i <= |args|
  {
    options | OptionBits(args[i..]) == OptionBits(args)
  }

  /** A step of the loop over a nonzero argument ORs in its contribution. */
  lemma AccumulateStep(args: seq<int>, i: nat, options: bv8)
    requires i < |args| && Accumulated(args, i, options) && args[i] != 0
    ensures Accumulated(args, i + 1, options | ArgBits(args[i]))
  {
    OptionBitsUnfold(args, i);
    OrRegroup(options, ArgBits(args[i]), OptionBits(args[i + 1..]), OptionBits(args[i..]), OptionBits(args));
  }

  lemma OptionBitsUnfold(args: seq<int>, i: nat)
    requires i < |args| && args[i] != 0
    ensures OptionBits(args[i..]) == ArgBits(args[i]) | OptionBits(args[i + 1..])
  {
    assert args[i..][1..] == args[i + 1..];
  }

  /** A process id contributes nothing. */
  lemma PidStep(args: seq<int>, i: nat, options: bv8)
    requires i < |args| && Accumulated(args, i, options) && args[i] > 0
    ensures Accumulated(args, i + 1, options)
  {
    AccumulateStep(args, i, options);
    OrZero(options);
  }

  /** The loop stops at a 0: what it has accumulated is the whole mask. */
  lemma ZeroStep(args: seq<int>, i: nat, options: bv8)
    requires i < |args| && Accumulated(args, i, options) && args[i] == 0
    ensures options == OptionBits(args)
  {
    OrZero(options);
  }

  lemma OrRegroup(x: bv8, a: bv8, rest: bv8, whole: bv8, total: bv8)
    requires x | whole == total && whole == a | rest
    ensures (x | a) | rest == total
  {
  }

  lemma OrZero(x: bv8)
    ensures x | 0 == x
  {
  }

  lemma AccumulatedStart(args: seq<int>)
    ensures Accumulated(args, 0, 0)
  {
    assert args[0..] == args;
  }

  lemma AccumulatedAll(args: seq<int>, options: bv8)
    requires Accumulated(args, |args|, options)
    ensures options == OptionBits(args)
  {
    assert args[|args|..] == [];
  }

  /** Everything after the first 0 is ignored. */
  lemma {:induction false} OptionBitsStopAtZero(a: seq<int>, b: seq<int>)
    ensures OptionBits(a + [0] + b) == OptionBits(a)
  {
    if a != [] {
      assert (a + [0] + b)[1..] == a[1..] + [0] + b;
      OptionBitsStopAtZero(a[1..], b);
    }
  }

  /** A positive argument (a process id) leaves the mask unchanged. */
  lemma {:induction false} OptionBitsIgnorePid(a: seq<int>, pid: int, b: seq<int>)
    requires pid > 0
    ensures OptionBits(a + [pid] + b) == OptionBits(a + b)
  {
    if a == [] {
      assert a + [pid] + b == [pid] + b && a + b == b;
      assert ([pid] + b)[1..] == b;
    } else {
      assert (a + [pid] + b)[1..] == a[1..] + [pid] + b;
      assert (a + b)[1..] == a[1..] + b;
      OptionBitsIgnorePid(a[1..], pid, b);
    }
  }

  /** Each state letter's encoding decodes to its own bit. */
  lemma LetterRoundTrip(c: char)
    requires IsStateLetter(c)
    ensures ArgBits(LetterCode(c)) == StateBit(c)
  {
    assert Low8(1) == 1 && Low8(2) == 2 && Low8(4) == 4 && Low8(8) == 8;
  }

  /** The bit an accepted argument asks for: its state bit, or none for a pid. */
  function WordBit(s: string): bv8 {
    if IsOption(s) then StateBit(s[0]) else 0
  }

  /** The options the user named, as the kernel's bits. */
  function Requested(words: seq<string>): bv8 {
    if words == [] then 0 else WordBit(words[0]) | Requested(words[1..])
  }

  /** An accepted argument is stored nonzero and decodes to its own bit. */
  lemma WordDecodes(w: string)
    requires ArgValue(w).Some?
    ensures ArgValue(w).value != 0
    ensures ArgBits(ArgValue(w).value) == WordBit(w)
  {
    if !(Atoi(w) != 0 && AllDigits(w)) {
      LetterRoundTrip(w[0]);
    }
  }

  lemma {:induction false} ValuesDecode(words: seq<string>)
    requires AllAccepted(words)
    ensures OptionBits(Values(words)) == Requested(words)
  {
    if words != [] {
      ValuesDecode(words[1..]);
      WordDecodes(words[0]);
      var vs := Values(words);
      assert vs[0] == ArgValue(words[0]).value && vs[1..] == Values(words[1..]);
    }
  }

  /**
   * Round trip: whatever `ps` accepts, the mask `sys_pstate` computes from
   * the six slots is exactly the OR of the state bits of the letters given.
   */
  lemma ParseThenDecode(argv: seq<string>)
    requires ParseSpec(argv).Args?
    ensures OptionBits(ParseSpec(argv).args) == Requested(UserArgs(argv))
  {
    var words := UserArgs(argv);
    var vs := Values(words);
    ValuesDecode(words);
    var z := Zeros(MaxArgs - |words|);
    if z == [] {
      assert vs + z == vs;
    } else {
      assert z == [0] + z[1..];
      assert vs + z == vs + [0] + z[1..];
      OptionBitsStopAtZero(vs, z[1..]);
    }
  }

  /** The argument is the lone letter `c`. */
  predicate Names(w: string, c: char) {
    IsOption(w) && w[0] == c
  }

  /** The mask holds a state's bit exactly when its letter was given. */
  lemma {:induction false} RequestedHasBit(words: seq<string>, c: char)
    requires IsStateLetter(c)
    ensures Requested(words) & StateBit(c) != 0 <==>
      exists i :: 0 <= i < |words| && Names(words[i], c)
  {
    if words != [] {
      RequestedHasBit(words[1..], c);
      if exists i :: 0 <= i < |words[1..]| && Names(words[1..][i], c) {
        var i :| 0 <= i < |words[1..]| && Names(words[1..][i], c);
        assert Names(words[i + 1], c);
      }
      if exists i :: 0 <= i < |words| && Names(words[i], c) {
        var i :| 0 <= i < |words| && Names(words[i], c);
        if i > 0 {
          assert Names(words[1..][i - 1], c);
        }
      }
    }
  }

  /** The mask never holds a bit above the four states. */
  lemma {:induction false} RequestedInLowNibble(words: seq<string>)
    ensures Requested(words) & 0xF0 == 0
  {
    if words != [] {
      RequestedInLowNibble(words[1..]);
    }
  }

  /**
   * `ps` end to end: help and exit status 1 for a refused command line;
   * otherwise the `pstate` call, whose mask is exactly the states named,
   * and exit status 0 since `sys_pstate` returns 0.
   */
  method Ps(argv: seq<string>) returns (status: int, mask: Option<bv8>)
    requires forall m :: 0 <= m < |argv| ==> IsCString(argv[m])
    ensures status == 1 <==> ParseSpec(argv) == Help
    ensures status == 0 <==> ParseSpec(argv).Args?
    ensures status == 1 ==> mask == None
    ensures status == 0 ==> mask == Some(Requested(UserArgs(argv)))
  {
    var parsed := ParseArgs(argv);
    if parsed == Help {
      return 1, None;
    }
    var ret, options := SysPState(parsed.args);
    assert parsed.args[..MaxArgs] == parsed.args;
    ParseThenDecode(argv);
    if ret != 0 {
      return 1, None;
    }
    return 0, Some(options);
  }

  /** The three words of `ps S Z 7`: two state letters and a pid. */
  lemma ExampleWords()
    ensures ArgValue("S") == Some(SleepArg) && ArgValue("Z") == Some(ZombieArg) && ArgValue("7") == Some(7)
  {
    assert Atoi("S") == 0 && Atoi("Z") == 0 by {
      assert DigitRun("S") == 0 && DigitRun("Z") == 0;
    }
    assert Decimal("7") == 7 by {
      assert "7"[..0] == "";
    }
  }

  /** `ps S Z 7` passes the codes of S and Z, the pid 7, and three zeros. */
  lemma ExampleParse()
    ensures ParseSpec(["ps", "S", "Z", "7"]) == Args([-1, -8, 7, 0, 0, 0])
  {
    ExampleWords();
    var words: seq<string> := ["S", "Z", "7"];
    assert UserArgs(["ps", "S", "Z", "7"]) == words;
    assert AllAccepted(words);
    assert words[1..] == ["Z", "7"] && words[1..][1..] == ["7"] && words[1..][1..][1..] == [];
    assert Values(words) == [-1, -8, 7];
    assert Zeros(3) == [0, 0, 0];
  }

  /** ... and asks the kernel for sleeping and zombie processes. */
  lemma ExampleMask()
    ensures OptionBits([-1, -8, 7, 0, 0, 0]) == SleepBit | ZombieBit == 9
  {
    var a: seq<int> := [-1, -8, 7, 0, 0, 0];
    assert a[1..] == [-8, 7, 0, 0, 0] && a[1..][1..] == [7, 0, 0, 0] && a[1..][1..][1..] == [0, 0, 0];
    assert OptionBits([0, 0, 0]) == 0;
    assert OptionBits([7, 0, 0, 0]) == ArgBits(7) | 0 == 0;
    assert Low8(8) == 8 && Low8(1) == 1;
  }
}
