/** What a command line says, by the characters of its arguments: which are switches, what their names
    and values are, and where they end up. */
module SwitchNames {
  import opened Basics
  import opened Search
  import opened TextUtils
  import opened CommandLines
  import opened Reparsing

  // ---------- One argument ----------

  /** `s` is a switch of that name and value: one or two dashes, a name, and "=" and the value, which may
      be missing if there is none.  A lone "-" or "--" is no switch, and of more dashes only two go. */
  predicate Spells(s: string, name: string, value: string) {
    && '=' !in name
    && (s == "--" + name + "=" + value || (s == "--" + name && value == "" && name != "") ||
        ((name == "" || name[0] != '-') &&
         (s == "-" + name + "=" + value || (s == "-" + name && value == "" && name != ""))))
  }

  /** Which strings are switches, by their first characters. */
  lemma IsSwitchExactly(s: string)
    ensures IsSwitch(s) <==> |s| >= 2 && s[0] == '-' && s != "--"
  {
  }

  lemma SpellsExactly(s: string, name: string, value: string)
    ensures Spells(s, name, value) <==> IsSwitch(s) && SwitchName(s) == name && SwitchValue(s) == value
  {
    if Spells(s, name, value) {
      SpelledSwitch(s, name, value);
    }
    if IsSwitch(s) && SwitchName(s) == name && SwitchValue(s) == value {
      SwitchSpells(s);
    }
  }

  lemma SpelledSwitch(s: string, name: string, value: string)
    requires Spells(s, name, value)
    ensures IsSwitch(s) && SwitchName(s) == name && SwitchValue(s) == value
  {
    var dashes := if "--" <= s then "--" else "-";
    var n := dashes + name;
    assert s[0] == '-';
    assert s == n || s == n + "=" + value by { FirstDashes(s, name, value); }
    PartsOf(n, value);
    assert PrefixLength(n) == |dashes| by { DashesOf(dashes, name, s); }
    assert n[|dashes|..] == name;
  }

  lemma FirstDashes(s: string, name: string, value: string)
    requires Spells(s, name, value)
    ensures var n := (if "--" <= s then "--" else "-") + name;
      (s == n && value == "" && name != "") || s == n + "=" + value
  {
    if s == "-" + name + "=" + value && (name == "" || name[0] != '-') {
      assert s[1] == if name == "" then '=' else name[0];
      assert !("--" <= s);
    } else if s == "-" + name && name != "" && name[0] != '-' {
      assert s[1] == name[0];
      assert !("--" <= s);
    } else {
      assert s[0] == '-' && s[1] == '-';
      assert s[..2] == "--";
    }
  }

  lemma DashesOf(dashes: string, name: string, s: string)
    requires dashes == "--" || (dashes == "-" && (name == "" || name[0] != '-'))
    ensures PrefixLength(dashes + name) == |dashes|
  {
    if dashes == "-" && name != "" {
      assert (dashes + name)[1] == name[0];
    }
  }

  lemma SwitchSpells(s: string)
    requires IsSwitch(s)
    ensures Spells(s, SwitchName(s), SwitchValue(s))
  {
    PrefixOfSwitch(s);
    Parts(s);
    var n, name := SwitchString(s), SwitchName(s);
    assert n == n[..PrefixLength(n)] + name;
    assert '=' !in name by { assert forall i :: 0 <= i < |name| ==> name[i] == n[PrefixLength(n) + i]; }
  }

  /** A switch is written down as it was, but without a last "=" that nothing follows. */
  lemma WrittenExactly(s: string, name: string, value: string)
    requires Spells(s, name, value)
    ensures Written(s) == if value == "" && s[|s| - 1] == '=' then s[..|s| - 1] else s
  {
    hide SwitchString, SwitchValue, Combined, PrefixLength;
    SpellsExactly(s, name, value);
    WrittenKeeps(s);
    Parts(s);
    assert s == SwitchString(s) ==> s[|s| - 1] in SwitchString(s);
  }

  /** What `appendSwitch` makes of a name with or without dashes. */
  lemma AppendedSwitch(name: string, value: string)
    requires name == "" || name[0] != '-'
    ensures var written := "--" + name + (if value == "" then "" else "=" + value);
      && Combined(name, value) == Combined("--" + name, value) == written
      && PrefixLength(name) == 0 && ("--" + name)[PrefixLength("--" + name)..] == name
    ensures Combined("-" + name, value) == "-" + name + (if value == "" then "" else "=" + value)
    ensures ("-" + name)[PrefixLength("-" + name)..] == name
  {
    DashesOf("--", name, "");
    DashesOf("-", name, "");
  }

  // ---------- Whole command lines ----------

  /** The arguments before the first terminator. */
  predicate Before(args: seq<string>, m: nat) {
    m <= |args| && "--" !in args[..m] && (m < |args| ==> args[m] == "--")
  }

  function Selected(args: seq<string>, switches: bool): seq<string> {
    if args == [] then []
    else
      var s, n := args[|args| - 1], |args| - 1;
      Selected(args[..n], switches) + (if switches == (|s| >= 2 && s[0] == '-') then [s] else [])
  }

  /** Up to the terminator the arguments are divided by their first characters; it and what follows it
      are arguments. */
  lemma {:induction false} DividedAt(args: seq<string>, m: nat)
    requires Before(args, m)
    ensures Switches(args, true) == Selected(args[..m], true)
    ensures Arguments(args, true) == Selected(args[..m], false) + args[m..]
  {
    BeforeTerminator(args[..m]);
    assert args == args[..m] + args[m..];
    Concat(args[..m], args[m..], true);
    if m < |args| {
      AfterTerminator(args[m + 1..]);
      assert args[m..] == [args[m]] + args[m + 1..];
    }
  }

  lemma {:induction false} AfterTerminator(args: seq<string>)
    ensures Switches(args, false) == [] && Arguments(args, false) == args
    decreases |args|
  {
    if args != [] {
      AfterTerminator(args[1..]);
    }
  }

  lemma {:induction false} BeforeTerminator(args: seq<string>)
    requires "--" !in args
    ensures Switches(args, true) == Selected(args, true) && Arguments(args, true) == Selected(args, false)
    decreases |args|
  {
    hide IsSwitch;
    if args != [] {
      var n := |args| - 1;
      assert args == args[..n] + [args[n]];
      BeforeTerminator(args[..n]);
      OneMore(args[..n], args[n]);
      IsSwitchExactly(args[n]);
    }
  }

  /** The switch map before the terminator: a name maps to the value of the last switch of that name. */
  lemma {:induction false} MapOfSelected(args: seq<string>, name: string, value: string)
    requires "--" !in args
    ensures var m := SwitchMap(Selected(args, true));
      (name in m && m[name] == value) <==> LastSpells(args, name, value)
    decreases |args|
  {
    hide IsSwitch, SwitchName, SwitchValue, Spells;
    if args != [] {
      var n := |args| - 1;
      var before, s := args[..n], args[n];
      MapOfSelected(before, name, value);
      IsSwitchExactly(s);
      SelectedMore(args);
      LastSpellsMore(args, name, value);
      if IsSwitch(s) {
        WrittenMore(Selected(before, true), s);
        SpellsExactly(s, name, value);
        SpellsExactly(s, name, SwitchValue(s));
        AnyValue(s, name);
      } else {
        NotSpelled(s, name);
        assert Selected(before, true) + [] == Selected(before, true);
      }
    }
  }

  lemma SelectedMore(args: seq<string>)
    requires "--" !in args && args != []
    ensures var n := |args| - 1;
      Selected(args, true) == Selected(args[..n], true) + (if IsSwitch(args[n]) then [args[n]] else [])
  {
    IsSwitchExactly(args[|args| - 1]);
  }

  ghost predicate LastSpells(args: seq<string>, name: string, value: string) {
    exists k :: 0 <= k < |args| && Spells(args[k], name, value) && Unspelled(After(args, k), name)
  }

  function After(args: seq<string>, k: nat): seq<string>
    requires k < |args|
  {
    args[k + 1..]
  }

  /** None of them is a switch of that name. */
  ghost predicate Unspelled(args: seq<string>, name: string) {
    forall j, v :: 0 <= j < |args| ==> !Spells(args[j], name, v)
  }

  lemma LastSpellsMore(args: seq<string>, name: string, value: string)
    requires args != []
    ensures var n := |args| - 1;
      LastSpells(args, name, value) <==>
        Spells(args[n], name, value) || (Unspelled([args[n]], name) && LastSpells(args[..n], name, value))
  {
    hide Spells;
    var n := |args| - 1;
    var before := args[..n];
    assert After(args, n) == [];
    forall k | 0 <= k < n
      ensures Unspelled(After(args, k), name) <==> Unspelled([args[n]], name) && Unspelled(After(before, k), name)
    {
      UnspelledMore(args, k, name);
    }
    assert forall k :: 0 <= k < n ==> before[k] == args[k];
    if LastSpells(args, name, value) {
      var k :| 0 <= k < |args| && Spells(args[k], name, value) && Unspelled(After(args, k), name);
      assert k < n ==> Spells(before[k], name, value);
    }
    if LastSpells(before, name, value) {
      var k :| 0 <= k < n && Spells(before[k], name, value) && Unspelled(After(before, k), name);
      assert Spells(args[k], name, value);
    }
  }

  lemma UnspelledMore(args: seq<string>, k: nat, name: string)
    requires k < |args| - 1
    ensures var n := |args| - 1;
      Unspelled(After(args, k), name) <==> Unspelled([args[n]], name) && Unspelled(After(args[..n], k), name)
  {
    hide Spells;
    var n := |args| - 1;
    assert args[k + 1..] == args[..n][k + 1..] + [args[n]];
    var a := args[..n][k + 1..];
    assert forall j :: 0 <= j < |a| ==> (a + [args[n]])[j] == a[j];
    assert (a + [args[n]])[|a|] == args[n];
  }

  lemma AnyValue(s: string, name: string)
    requires IsSwitch(s)
    ensures Unspelled([s], name) <==> SwitchName(s) != name
  {
    hide Spells, IsSwitch, SwitchName, SwitchValue;
    SpellsExactly(s, name, SwitchValue(s));
    assert Spells(s, name, SwitchValue(s)) <==> SwitchName(s) == name;
    assert [s][0] == s;
    forall v
      ensures Spells(s, name, v) ==> SwitchName(s) == name
    {
      SpellsExactly(s, name, v);
    }
  }

  lemma NotSpelled(s: string, name: string)
    requires !IsSwitch(s)
    ensures Unspelled([s], name) && forall v :: !Spells(s, name, v)
  {
    hide Spells, IsSwitch, SwitchName, SwitchValue;
    forall v
      ensures !Spells(s, name, v)
    {
      SpellsExactly(s, name, v);
    }
  }

  /** After parsing, a name has a value exactly if, among the trimmed arguments before the terminator, the
      last switch of that name has it. */
  lemma {:induction false} ParsedSwitchIff(argv: seq<string>, m: nat, name: string, value: string)
    requires Parsable(argv) && Before(TrimAll(Tail(argv)), m)
    ensures var st := Parsed(argv);
      (name in st.switches && st.switches[name] == value) <==> LastSpells(TrimAll(Tail(argv))[..m], name, value)
  {
    hide SwitchMap, LastSpells, Trim;
    var args := TrimAll(Tail(argv));
    DividedAt(args, m);
    MapOfSelected(args[..m], name, value);
  }

  /** And this is where the arguments are: the program, the switches, the others in their order. */
  lemma {:induction false} ParsedLayout(argv: seq<string>, m: nat)
    requires Parsable(argv) && Before(TrimAll(Tail(argv)), m)
    ensures var st, args := Parsed(argv), TrimAll(Tail(argv));
      && st.argv[0] == Trim(if argv == [] then "" else CString(argv[0])).value
      && st.startArgs == 1 + |Selected(args[..m], true)| <= |st.argv|
      && st.argv[1..st.startArgs] == AllWritten(Selected(args[..m], true))
      && st.argv[st.startArgs..] == Selected(args[..m], false) + args[m..]
  {
    hide SwitchMap, Trim;
    var args := TrimAll(Tail(argv));
    DividedAt(args, m);
  }
}
