/** The command line of kwctoolkit/system/cmdline.cc: switches first, arguments after, and a map of
    the switches beside them. */
module CommandLines {
  import opened Basics
  import opened Search
  import opened TextUtils

  const TERMINATOR: string := "--"

  // ---------- Single arguments ----------

  function PrefixLength(s: string): nat {
    if "--" <= s then 2 else if "-" <= s then 1 else 0
  }

  predicate IsSwitch(s: string) {
    PrefixLength(s) != 0 && PrefixLength(s) != |s|
  }

  function SwitchString(s: string): string {
    match FindChar(s, '=', 0)
    case None => s
    case Some(k) => s[..k]
  }

  function SwitchValue(s: string): string {
    match FindChar(s, '=', 0)
    case None => ""
    case Some(k) => s[k + 1..]
  }

  function SwitchName(s: string): string {
    SwitchString(s)[PrefixLength(SwitchString(s))..]
  }

  /** A switch as `appendSwitch` writes it down: an empty value loses its "=". */
  function Combined(name: string, value: string): string {
    (if PrefixLength(name) == 0 then "--" + name else name) + (if value == "" then "" else "=" + value)
  }

  function Written(s: string): string {
    Combined(SwitchString(s), SwitchValue(s))
  }

  // ---------- Whole command lines ----------

  /** The switches and the other arguments of trimmed arguments, in order; "--" and what follows it
      are no switches. */
  function Switches(args: seq<string>, parsing: bool): seq<string>
    decreases |args|
  {
    if args == [] then []
    else
      var p := parsing && args[0] != TERMINATOR;
      (if p && IsSwitch(args[0]) then [args[0]] else []) + Switches(args[1..], p)
  }

  function Arguments(args: seq<string>, parsing: bool): seq<string>
    decreases |args|
  {
    if args == [] then []
    else
      var p := parsing && args[0] != TERMINATOR;
      (if p && IsSwitch(args[0]) then [] else [args[0]]) + Arguments(args[1..], p)
  }

  function AllWritten(switches: seq<string>): seq<string> {
    seq(|switches|, i requires 0 <= i < |switches| => Written(switches[i]))
  }

  /** The last switch of a name wins. */
  function SwitchMap(switches: seq<string>): map<string, string> {
    if switches == [] then map[]
    else
      var s := switches[|switches| - 1];
      SwitchMap(switches[..|switches| - 1])[SwitchName(s) := SwitchValue(s)]
  }

  /** A string of blanks only cannot be trimmed. */
  predicate Trimmable(s: string) {
    Trim(s).Some?
  }

  predicate AllTrimmable(args: seq<string>) {
    forall i :: 0 <= i < |args| ==> Trimmable(args[i])
  }

  function TrimAll(args: seq<string>): seq<string>
    requires AllTrimmable(args)
  {
    seq(|args|, i requires 0 <= i < |args| => Trim(args[i]).value)
  }

  function Program(argv: seq<string>): string {
    if argv == [] then "" else CString(argv[0])
  }

  function Tail(argv: seq<string>): seq<string> {
    if argv == [] then [] else argv[1..]
  }

  datatype State = State(argv: seq<string>, switches: map<string, string>, startArgs: nat)

  predicate Parsable(argv: seq<string>) {
    Trimmable(Program(argv)) && AllTrimmable(Tail(argv))
  }

  /** The state after parsing: program, switches as written down, other arguments. */
  function Parsed(argv: seq<string>): State
    requires Parsable(argv)
  {
    var args := TrimAll(Tail(argv));
    var switches := Switches(args, true);
    State([Trim(Program(argv)).value] + AllWritten(switches) + Arguments(args, true),
          SwitchMap(switches), 1 + |switches|)
  }

  // ---------- The program ----------

  class CommandLine {
    var argv: seq<string>
    var switches: map<string, string>
    var startArgs: nat

    ghost predicate Valid()
      reads this
    {
      1 <= startArgs <= |argv|
    }

    function GetState(): State
      reads this
    {
      State(argv, switches, startArgs)
    }

    constructor ()
      ensures Valid() && argv == [""] && switches == map[] && startArgs == 1
    {
      argv, switches, startArgs := [""], map[], 1;
    }

    /** Throws if the program or an argument is a string of blanks. */
    method InitFromArgv(argv: seq<string>) returns (threw: bool)
      modifies this
      ensures Valid()
      ensures threw <==> !Parsable(argv)
      ensures !threw ==> GetState() == Parsed(argv)
    {
      this.argv, startArgs, switches := [""], 1, map[];
      threw := SetProgram(Program(argv));
      if threw {
        return;
      }
      ghost var program := this.argv[0];
      var args := Tail(argv);
      NothingParsed();
      threw := ParseAll(program, args);
    }

    /** The loop over the arguments. */
    method ParseAll(ghost program: string, args: seq<string>) returns (threw: bool)
      requires Valid() && ParsedSoFar(program, [])
      modifies this
      ensures Valid() && (threw <==> !AllTrimmable(args))
      ensures !threw ==> ParsedSoFar(program, TrimAll(args))
    {
      hide *;
      var parseSwitches := true;
      ghost var done := [];
      NothingParsed();
      for i := 0 to |args|
        invariant Valid() && ParsedSoFar(program, done) && IsTrimmed(args[..i], done)
        invariant parseSwitches == (TERMINATOR !in done)
      {
        assert args[..i + 1] == args[..i] + [args[i]];
        var trimmed := Trim(args[i]);
        if trimmed.None? {
          NotTrimmable(args, i);
          return true;
        }
        TrimMore(args[..i], args[i], done);
        var arg := trimmed.value;
        parseSwitches := parseSwitches && arg != TERMINATOR;
        ParseOne(parseSwitches, arg, program, done);
        done := done + [arg];
      }
      assert args[..|args|] == args;
      AllTrimmed(args, done);
      return false;
    }

    /** The end of the loop body. */
    method ParseOne(parseSwitches: bool, arg: string, ghost program: string, ghost args: seq<string>)
      requires Valid() && ParsedSoFar(program, args) && parseSwitches == (TERMINATOR !in args && arg != TERMINATOR)
      modifies this
      ensures Valid() && ParsedSoFar(program, args + [arg])
    {
      hide Switches, Arguments, IsSwitch, SwitchString, SwitchValue, Combined, PrefixLength;
      OneMore(args, arg);
      ghost var s := Switches(args, true);
      assert argv[..startArgs] == [program] + AllWritten(s) && argv[startArgs..] == Arguments(args, true);
      if parseSwitches && IsSwitch(arg) {
        WrittenMore(s, arg);
        AppendSwitch(SwitchString(arg), SwitchValue(arg));
        assert Switches(args + [arg], true) == s + [arg];
        assert [program] + AllWritten(s) + [Written(arg)] == [program] + (AllWritten(s) + [Written(arg)]);
      } else {
        AppendArg(arg);
        assert Switches(args + [arg], true) == s;
      }
    }

    /** The state after the arguments `args` of a program. */
    ghost predicate ParsedSoFar(program: string, args: seq<string>)
      reads this
    {
      var s := Switches(args, true);
      argv == [program] + AllWritten(s) + Arguments(args, true) && switches == SwitchMap(s) && startArgs == 1 + |s|
    }

    method SetProgram(program: string) returns (threw: bool)
      requires Valid()
      modifies `argv
      ensures threw <==> !Trimmable(program)
      ensures argv == if threw then old(argv) else old(argv)[0 := Trim(program).value]
    {
      var trimmed := Trim(program);
      if trimmed.None? {
        return true;
      }
      argv := argv[0 := trimmed.value];
      return false;
    }

    method AppendSwitch(switchString: string, value: string)
      requires Valid()
      modifies this
      ensures Valid() && startArgs == old(startArgs) + 1
      ensures switches == old(switches)[switchString[PrefixLength(switchString)..] := value]
      ensures argv == old(argv[..startArgs]) + [Combined(switchString, value)] + old(argv[startArgs..])
    {
      var prefixLength := PrefixLength(switchString);
      switches := switches[switchString[prefixLength..] := value];
      var combined := switchString;
      if prefixLength == 0 {
        combined := "--" + combined;
      }
      assert combined + "" == combined;
      if value != "" {
        combined := combined + ("=" + value);
      }
      argv := argv[..startArgs] + [combined] + argv[startArgs..];
      startArgs := startArgs + 1;
    }

    method AppendArg(value: string)
      modifies `argv
      ensures argv == old(argv) + [value]
    {
      argv := argv + [value];
    }

    /** The arguments without their first terminator. */
    method GetArgs() returns (args: seq<string>)
      requires Valid()
      ensures TERMINATOR !in argv[startArgs..] ==> args == argv[startArgs..]
      ensures TERMINATOR in argv[startArgs..] ==> exists k | startArgs <= k < |argv| ::
        argv[k] == TERMINATOR && TERMINATOR !in argv[startArgs..k] && args == argv[startArgs..k] + argv[k + 1..]
    {
      args := argv[startArgs..];
      for k := 0 to |args|
        invariant args == argv[startArgs..] && TERMINATOR !in args[..k]
      {
        if args[k] == TERMINATOR {
          assert argv[startArgs..startArgs + k] == args[..k] && argv[startArgs + k + 1..] == args[k + 1..];
          assert argv[startArgs + k] == TERMINATOR;
          return args[..k] + args[k + 1..];
        }
      }
    }
  }

  lemma NothingParsed()
    ensures Switches([], true) == [] && Arguments([], true) == [] && AllWritten([]) == [] && SwitchMap([]) == map[]
    ensures IsTrimmed([], [])
  {
  }

  ghost predicate IsTrimmed(args: seq<string>, done: seq<string>) {
    AllTrimmable(args) && done == TrimAll(args)
  }

  lemma AllTrimmed(args: seq<string>, done: seq<string>)
    requires IsTrimmed(args, done)
    ensures AllTrimmable(args) && TrimAll(args) == done
  {
  }

  lemma TrimMore(args: seq<string>, arg: string, done: seq<string>)
    requires IsTrimmed(args, done) && Trim(arg).Some?
    ensures IsTrimmed(args + [arg], done + [Trim(arg).value])
  {
  }

  lemma NotTrimmable(args: seq<string>, i: nat)
    requires i < |args| && Trim(args[i]).None?
    ensures !AllTrimmable(args)
  {
    assert !Trimmable(args[i]);
  }

  lemma WrittenMore(s: seq<string>, arg: string)
    ensures AllWritten(s + [arg]) == AllWritten(s) + [Written(arg)]
    ensures SwitchMap(s + [arg]) == SwitchMap(s)[SwitchName(arg) := SwitchValue(arg)]
  {
    assert (s + [arg])[..|s|] == s;
  }

  /** One more argument goes to the end of the switches or of the other arguments. */
  lemma {:induction false} OneMore(args: seq<string>, arg: string)
    ensures var p := TERMINATOR !in args && arg != TERMINATOR;
      && Switches(args + [arg], true) == Switches(args, true) + (if p && IsSwitch(arg) then [arg] else [])
      && Arguments(args + [arg], true) == Arguments(args, true) + (if p && IsSwitch(arg) then [] else [arg])
  {
    Concat(args, [arg], true);
  }

  lemma Concat(args: seq<string>, more: seq<string>, parsing: bool)
    ensures var p := parsing && TERMINATOR !in args;
      && Switches(args + more, parsing) == Switches(args, parsing) + Switches(more, p)
      && Arguments(args + more, parsing) == Arguments(args, parsing) + Arguments(more, p)
  {
    ConcatSwitches(args, more, parsing);
    ConcatArguments(args, more, parsing);
  }

  lemma {:induction false} ConcatSwitches(args: seq<string>, more: seq<string>, parsing: bool)
    ensures Switches(args + more, parsing) == Switches(args, parsing) + Switches(more, parsing && TERMINATOR !in args)
    decreases |args|
  {
    hide IsSwitch, Arguments;
    if args == [] {
      assert args + more == more;
    } else {
      assert (args + more)[1..] == args[1..] + more;
      ConcatSwitches(args[1..], more, parsing && args[0] != TERMINATOR);
    }
  }

  lemma {:induction false} ConcatArguments(args: seq<string>, more: seq<string>, parsing: bool)
    ensures Arguments(args + more, parsing)
         == Arguments(args, parsing) + Arguments(more, parsing && TERMINATOR !in args)
    decreases |args|
  {
    hide IsSwitch, Switches;
    if args == [] {
      assert args + more == more;
    } else {
      assert (args + more)[1..] == args[1..] + more;
      ConcatArguments(args[1..], more, parsing && args[0] != TERMINATOR);
    }
  }
}
