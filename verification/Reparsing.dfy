/** What the parsed command line says about its own switches, and when parsing it again changes
    nothing. */
module Reparsing {
  import opened Basics
  import opened Search
  import opened TextUtils
  import opened CommandLines

  // ---------- Trimmed strings ----------

  predicate IsTrim(s: string) {
    s == "" || (s[0] != BLANK && s[|s| - 1] != BLANK)
  }

  lemma TrimOfTrimmed(s: string)
    requires IsTrim(s)
    ensures Trim(s) == Some(s)
  {
  }

  lemma TrimIsTrimmed(s: string)
    requires Trim(s).Some?
    ensures IsTrim(Trim(s).value)
    ensures s != "" && s[0] != BLANK ==> Trim(s).value != "" && Trim(s).value <= s
  {
    if s != "" {
      var t := TrimFront(s);
      assert TrimBack(t) != "" ==> TrimBack(t)[0] == t[0];
    }
  }

  // ---------- Single switches ----------

  lemma Parts(s: string)
    ensures '=' !in SwitchString(s) && SwitchString(s) <= s
    ensures s == SwitchString(s) || s == SwitchString(s) + "=" + SwitchValue(s)
    ensures s == SwitchString(s) ==> SwitchValue(s) == ""
  {
    match FindChar(s, '=', 0)
    case None => assert forall i :: 0 <= i < |s| ==> s[i] != '=';
    case Some(k) =>
      assert s == s[..k] + [s[k]] + s[k + 1..];
      assert s[0..k] == s[..k];
  }

  lemma {:induction false} FindFirst(s: string, rest: string, from: nat)
    requires '=' !in s && from <= |s|
    ensures FindChar(s + rest, '=', from) == FindChar(s + rest, '=', |s|)
    decreases |s| - from
  {
    if from < |s| {
      assert (s + rest)[from] == s[from] && s[from] in s;
      FindFirst(s, rest, from + 1);
    }
  }

  /** Taking a switch apart that was put together. */
  lemma PartsOf(name: string, value: string)
    requires '=' !in name
    ensures SwitchString(name) == name && SwitchValue(name) == ""
    ensures SwitchString(name + "=" + value) == name && SwitchValue(name + "=" + value) == value
  {
    FindFirst(name, "", 0);
    assert name + "" == name;
    FindFirst(name, "=" + value, 0);
    var s := name + "=" + value;
    assert s == name + ("=" + value) && s[|name|] == '=';
    assert s[..|name|] == name && s[|name| + 1..] == value;
  }

  /** A switch keeps its dashes in front of the "=". */
  lemma PrefixOfSwitch(s: string)
    requires IsSwitch(s)
    ensures PrefixLength(SwitchString(s)) == PrefixLength(s) != 0
  {
    Parts(s);
    var n := SwitchString(s);
    var rest := if s == n then "" else "=" + SwitchValue(s);
    assert s == n + rest && (rest == "" || rest[0] == '=');
    assert s[0] == (n + rest)[0] && s[1] == (n + rest)[1];
  }

  /** Written down, a switch has the same name and value. */
  lemma WrittenKeeps(s: string)
    requires IsSwitch(s)
    ensures SwitchString(Written(s)) == SwitchString(s) && SwitchValue(Written(s)) == SwitchValue(s)
    ensures SwitchName(Written(s)) == SwitchName(s)
    ensures Written(s) == SwitchString(s) + (if SwitchValue(s) == "" then "" else "=" + SwitchValue(s))
  {
    Parts(s);
    PrefixOfSwitch(s);
    var n, v := SwitchString(s), SwitchValue(s);
    PartsOf(n, v);
    assert n + "" == n && n + ("=" + v) == n + "=" + v;
  }

  /** The map is the last-wins map of the switches as they stand in the command line. */
  lemma {:induction false} MapOfWritten(switches: seq<string>)
    requires forall i :: 0 <= i < |switches| ==> IsSwitch(switches[i])
    ensures SwitchMap(AllWritten(switches)) == SwitchMap(switches)
    decreases |switches|
  {
    if switches != [] {
      var n := |switches| - 1;
      MapOfWritten(switches[..n]);
      WrittenKeeps(switches[n]);
      assert AllWritten(switches)[..n] == AllWritten(switches[..n]);
    }
  }

  lemma {:induction false} SwitchesAreSwitches(args: seq<string>, parsing: bool)
    ensures forall i :: 0 <= i < |Switches(args, parsing)| ==>
      IsSwitch(Switches(args, parsing)[i]) && Switches(args, parsing)[i] in args
    decreases |args|
  {
    if args != [] {
      SwitchesAreSwitches(args[1..], parsing && args[0] != TERMINATOR);
    }
  }

  /** After parsing, the switch map belongs to the switches in `argv`. */
  lemma ParsedMap(argv: seq<string>)
    requires Parsable(argv)
    ensures var st := Parsed(argv);
      1 <= st.startArgs <= |st.argv| && st.switches == SwitchMap(st.argv[1..st.startArgs])
  {
    var s := Switches(TrimAll(Tail(argv)), true);
    SwitchesAreSwitches(TrimAll(Tail(argv)), true);
    MapOfWritten(s);
    var st := Parsed(argv);
    assert st.argv[1..st.startArgs] == AllWritten(s);
  }

  // ---------- Parsing again ----------

  /** Not a switch without a value whose name is nothing but dashes or has a blank at its end: such
      a one loses its "=" and is then read as an argument, as the terminator or trimmed. */
  predicate Stable(s: string) {
    var n := SwitchString(s);
    SwitchValue(s) != "" || (n != "-" && n != "--" && (n == "" || n[|n| - 1] != BLANK))
  }

  predicate AllStable(switches: seq<string>) {
    forall i :: 0 <= i < |switches| ==> Stable(switches[i])
  }

  /** A stable switch is read again as it was written down. */
  lemma StableIsReread(s: string)
    requires IsSwitch(s) && IsTrim(s) && Stable(s)
    ensures var w := Written(s);
      IsTrim(w) && IsSwitch(w) && w != TERMINATOR && Written(w) == w
  {
    Parts(s);
    PrefixOfSwitch(s);
    WrittenKeeps(s);
    var n, v, w := SwitchString(s), SwitchValue(s), Written(s);
    if v != "" {
      assert w == s;
      assert s[|n|] == '=' && |s| > 1;
      assert s != "--" by { assert s[|n|] == '='; assert "--"[0] == '-' && "--"[1] == '-'; }
    } else {
      assert w == n;
      ShortDashes(n);
      PartsOf(n, "");
    }
  }

  lemma ShortDashes(n: string)
    requires PrefixLength(n) != 0 && n != "-" && n != "--"
    ensures IsSwitch(n) && n[0] != BLANK
  {
  }

  /** An unstable one is not. */
  lemma UnstableIsChanged(s: string)
    requires IsSwitch(s) && !Stable(s)
    ensures var w := Written(s);
      Trim(w).Some? && (Trim(w).value == TERMINATOR || !IsSwitch(Trim(w).value) || Written(Trim(w).value) != w)
  {
    PrefixOfSwitch(s);
    WrittenKeeps(s);
    Parts(s);
    var n, w := SwitchString(s), Written(s);
    assert w == n && n[0] == '-' && n[0] != BLANK;
    assert Trim(n).Some?;
    TrimIsTrimmed(n);
    var t := Trim(n).value;
    assert '=' !in t by { assert t <= n; assert forall i :: 0 <= i < |t| ==> t[i] == n[i] && n[i] in n; }
    PartsOf(t, "");
    if IsSwitch(t) {
      WrittenKeeps(t);
      assert Written(t) == t;
    }
  }

  // ---------- Whole command lines ----------

  /** Arguments that follow the switches are never read as switches. */
  lemma {:induction false} ArgumentsStay(args: seq<string>, parsing: bool, p: bool)
    requires p ==> parsing
    ensures var a := Arguments(args, parsing);
      Switches(a, p) == [] && Arguments(a, p) == a
    decreases |args|
  {
    if args != [] {
      var q := parsing && args[0] != TERMINATOR;
      if q && IsSwitch(args[0]) {
        ArgumentsStay(args[1..], q, p);
        assert Arguments(args, parsing) == Arguments(args[1..], q);
      } else {
        ArgumentsStay(args[1..], q, p && args[0] != TERMINATOR);
        var rest := Arguments(args[1..], q);
        assert ([args[0]] + rest)[1..] == rest;
      }
    }
  }

  lemma {:induction false} AllSwitches(s: seq<string>)
    requires forall i :: 0 <= i < |s| ==> IsSwitch(s[i]) && s[i] != TERMINATOR
    ensures Switches(s, true) == s && Arguments(s, true) == [] && TERMINATOR !in s
    decreases |s|
  {
    if s != [] {
      AllSwitches(s[1..]);
    }
  }

  lemma {:induction false} SwitchesBound(s: seq<string>, parsing: bool)
    ensures |Switches(s, parsing)| <= |s|
    ensures |Switches(s, parsing)| == |s| ==>
      Switches(s, parsing) == s && forall i :: 0 <= i < |s| ==> IsSwitch(s[i]) && s[i] != TERMINATOR
    decreases |s|
  {
    if s != [] {
      SwitchesBound(s[1..], parsing && s[0] != TERMINATOR);
    }
  }

  lemma {:induction false} ArgumentsAreArguments(args: seq<string>, parsing: bool)
    ensures forall a :: a in Arguments(args, parsing) ==> a in args
    decreases |args|
  {
    if args != [] {
      ArgumentsAreArguments(args[1..], parsing && args[0] != TERMINATOR);
    }
  }

  predicate AllTrim(args: seq<string>) {
    forall i :: 0 <= i < |args| ==> IsTrim(args[i])
  }

  lemma TrimAllOfTrimmed(args: seq<string>)
    requires AllTrim(args)
    ensures AllTrimmable(args) && TrimAll(args) == args
  {
    forall i | 0 <= i < |args|
      ensures Trim(args[i]) == Some(args[i])
    {
      TrimOfTrimmed(args[i]);
    }
  }

  lemma TrimAllIsTrimmed(args: seq<string>)
    requires AllTrimmable(args)
    ensures AllTrim(TrimAll(args))
  {
    forall i | 0 <= i < |args|
      ensures IsTrim(TrimAll(args)[i])
    {
      TrimIsTrimmed(args[i]);
    }
  }

  /** The switches and arguments of a parsed command line are trimmed, and what it holds in their
      place can be trimmed. */
  lemma ParsedParts(args: seq<string>)
    requires AllTrim(args)
    ensures AllTrim(Switches(args, true)) && AllTrim(Arguments(args, true))
    ensures AllTrimmable(AllWritten(Switches(args, true)))
  {
    var s, a := Switches(args, true), Arguments(args, true);
    SwitchesAreSwitches(args, true);
    ArgumentsAreArguments(args, true);
    forall i | 0 <= i < |s|
      ensures IsTrim(s[i]) && Trimmable(Written(s[i]))
    {
      assert s[i] in args;
      PrefixOfSwitch(s[i]);
      WrittenKeeps(s[i]);
      assert Written(s[i])[0] != BLANK;
    }
    assert forall i :: 0 <= i < |a| ==> a[i] in a;
  }

  /** Reading switches and arguments in their new order. */
  lemma RereadParts(args: seq<string>)
    requires AllTrim(args)
    ensures AllTrimmable(AllWritten(Switches(args, true)) + Arguments(args, true))
    ensures var w, a := AllWritten(Switches(args, true)), Arguments(args, true);
      AllTrimmable(w) &&
      Switches(TrimAll(w + a), true) == Switches(TrimAll(w), true) &&
      Arguments(TrimAll(w + a), true) == Arguments(TrimAll(w), true) + a
  {
    hide Trim, Switches, Arguments, AllWritten;
    var w, a := AllWritten(Switches(args, true)), Arguments(args, true);
    ParsedParts(args);
    TrimAllOfTrimmed(a);
    TrimConcat(w, a);
    Concat(TrimAll(w), a, true);
    ArgumentsStay(args, true, TERMINATOR !in TrimAll(w));
    assert Switches(TrimAll(w), true) + [] == Switches(TrimAll(w), true);
  }

  lemma TrimConcat(s: seq<string>, t: seq<string>)
    requires AllTrimmable(s) && AllTrimmable(t)
    ensures AllTrimmable(s + t) && TrimAll(s + t) == TrimAll(s) + TrimAll(t)
  {
  }

  /** All stable switches are read again as they stand. */
  lemma StableSwitches(s: seq<string>)
    requires AllTrim(s) && AllStable(s) && forall i :: 0 <= i < |s| ==> IsSwitch(s[i])
    ensures var w := AllWritten(s);
      AllTrimmable(w) && TrimAll(w) == w && Switches(w, true) == w && Arguments(w, true) == [] && AllWritten(w) == w
  {
    var w := AllWritten(s);
    forall i | 0 <= i < |s|
      ensures IsTrim(w[i]) && IsSwitch(w[i]) && w[i] != TERMINATOR && Written(w[i]) == w[i]
    {
      StableIsReread(s[i]);
    }
    TrimAllOfTrimmed(w);
    AllSwitches(w);
  }

  lemma RereadOnlyIfStable(s: seq<string>)
    requires (forall i :: 0 <= i < |s| ==> IsSwitch(s[i])) && AllTrimmable(AllWritten(s))
    requires var t := TrimAll(AllWritten(s));
      |Switches(t, true)| == |s| && AllWritten(Switches(t, true)) == AllWritten(s)
    ensures AllStable(s)
  {
    var w := AllWritten(s);
    var t := TrimAll(w);
    SwitchesBound(t, true);
    forall i | 0 <= i < |s|
      ensures Stable(s[i])
    {
      assert IsSwitch(t[i]) && t[i] != TERMINATOR && t[i] == Trim(w[i]).value;
      assert Written(t[i]) == AllWritten(t)[i] == w[i];
      if !Stable(s[i]) {
        UnstableIsChanged(s[i]);
      }
    }
  }

  lemma ProgramAgain(argv: seq<string>, rest: seq<string>)
    requires Trimmable(Program(argv))
    ensures var p := Trim(Program(argv)).value;
      Trim(Program([p] + rest)) == Some(p)
  {
    var p := Trim(Program(argv)).value;
    TrimIsTrimmed(Program(argv));
    TrimOfTrimmed(p);
    TrimWithin(Program(argv));
    CStringNoNul(p);
  }

  lemma TrimWithin(s: string)
    requires Trim(s).Some?
    ensures forall c :: c in Trim(s).value ==> c in s
  {
  }

  /** Parsing the parsed command line never fails, and changes nothing exactly when all switches are
      stable. */
  lemma {:induction false} ReparseIff(argv: seq<string>)
    requires Parsable(argv)
    ensures var st := Parsed(argv);
      Parsable(st.argv) && (Parsed(st.argv) == st <==> AllStable(Switches(TrimAll(Tail(argv)), true)))
  {
    hide Trim, Program, SwitchMap, IsTrim, Switches, Arguments, Stable;
    var args := TrimAll(Tail(argv));
    var s, a, w := Switches(args, true), Arguments(args, true), AllWritten(Switches(args, true));
    var st, p := Parsed(argv), Trim(Program(argv)).value;
    TrimAllIsTrimmed(Tail(argv));
    RereadParts(args);
    ParsedParts(args);
    SwitchesAreSwitches(args, true);
    assert st.argv == [p] + (w + a) && Tail(st.argv) == w + a;
    ProgramAgain(argv, w + a);
    var t := TrimAll(w);
    var st' := Parsed(st.argv);
    assert st'.argv == [p] + AllWritten(Switches(t, true)) + (Arguments(t, true) + a);
    if AllStable(s) {
      StableSwitches(s);
      MapOfWritten(s);
      assert [] + a == a;
    }
    if st' == st {
      assert st'.argv[1..1 + |s|] == AllWritten(Switches(t, true)) && st.argv[1..1 + |s|] == w;
      RereadOnlyIfStable(s);
    }
  }
}
