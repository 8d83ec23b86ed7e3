/**
 * The command-line parser: decides between the help command, the version
 * command and the statistics report from the program's arguments.
 */
module CommandLine {
  import opened Wrappers

  /** The command the parser selects; the report carries what it was given. */
  datatype Command =
    | Help
    | Version
    | StatisticsReport(owner: string, repository: string, token: Option<string>)

  /** The two ways the parser throws its invalid-option exception. */
  datatype ParseError =
    | InvalidOption(arg: string)   // a switch the program does not know
    | InvalidArguments             // fewer than two positional arguments

  /** Invariant-culture lower case, on the ASCII letters. */
  function LowerChar(c: char): char {
    if 'A' <= c <= 'Z' then (c as int + 32) as char else c
  }

  function ToLowerInvariant(s: string): (r: string)
    ensures |r| == |s|
  {
    seq(|s|, i requires 0 <= i < |s| => LowerChar(s[i]))
  }

  /** An argument is a switch when it starts with '-'. */
  predicate IsSwitch(arg: string) {
    |arg| > 0 && arg[0] == '-'
  }

  /**
   * What a switch asks for: help or the version, only ever for an argument
   * that starts with '-'; anything else is reported unchanged as an invalid
   * option.
   */
  function SwitchCommand(arg: string): (r: Result<Command, ParseError>)
    ensures r.Success? ==> (r.value.Help? || r.value.Version?) && IsSwitch(arg)
    ensures r.Failure? ==> r.error == InvalidOption(arg)
  {
    var lowered := ToLowerInvariant(arg);
    assert |arg| > 0 ==> lowered[0] == LowerChar(arg[0]);
    if lowered == "--help" || lowered == "-h" then Success(Help)
    else if lowered == "--version" || lowered == "-v" then Success(Version)
    else Failure(InvalidOption(arg))
  }

  /** The report command for the positional arguments: owner, repository and, when there are exactly three, a token. */
  function BuildReportCommand(args: seq<string>): (r: Result<Command, ParseError>)
    ensures r.Success? <==> |args| >= 2
    ensures r.Failure? ==> r.error == InvalidArguments
    ensures r.Success? ==> && r.value.StatisticsReport?
                           && r.value.owner == args[0] && r.value.repository == args[1]
                           && (r.value.token.Some? <==> |args| == 3)
                           && (|args| == 3 ==> r.value.token == Some(args[2]))
  {
    if |args| < 2 then Failure(InvalidArguments)
    else Success(StatisticsReport(args[0], args[1], if |args| == 3 then Some(args[2]) else None))
  }

  /** The arguments the parser looks at: the non-null, non-empty ones, in order. */
  function Present(args: seq<Option<string>>): seq<string> {
    if |args| == 0 then []
    else
      var last := args[|args| - 1];
      Present(args[..|args| - 1]) + (if last.Some? && last.value != "" then [last.value] else [])
  }

  /** The index of the first switch, or the length when there is none. */
  function FirstSwitch(args: seq<string>): (k: nat)
    ensures k <= |args|
    ensures k < |args| ==> IsSwitch(args[k])
    ensures forall j :: 0 <= j < k ==> !IsSwitch(args[j])
  {
    if |args| == 0 then 0
    else if IsSwitch(args[0]) then 0
    else 1 + FirstSwitch(args[1..])
  }

  /**
   * What parsing decides: the first switch among the present arguments, if
   * there is one; otherwise the report command built from all of them. A
   * null argument array counts as an empty one.
   */
  function ParseArgs(args: Option<seq<Option<string>>>): (r: Result<Command, ParseError>)
    ensures r.Failure? && r.error.InvalidOption? ==> IsSwitch(r.error.arg) && r.error.arg in Present(args.GetOr([]))
    ensures r.Success? && r.value.StatisticsReport? ==> NoSwitch(args.GetOr([]))
    ensures r == Failure(InvalidArguments) ==> NoSwitch(args.GetOr([])) && |Present(args.GetOr([]))| < 2
  {
    var present := Present(args.GetOr([]));
    var k := FirstSwitch(present);
    if k < |present| then SwitchCommand(present[k]) else BuildReportCommand(present)
  }

  /** The present arguments of a concatenation. */
  lemma {:induction false} PresentAppend(args: seq<Option<string>>, more: seq<Option<string>>)
    ensures Present(args + more) == Present(args) + Present(more)
    decreases |more|
  {
    if |more| == 0 {
      assert args + more == args;
    } else {
      var init := more[..|more| - 1];
      assert (args + more)[..|args + more| - 1] == args + init;
      PresentAppend(args, init);
    }
  }

  /** The first switch of a concatenation: in the first part if it has one, else in the second. */
  lemma {:induction false} FirstSwitchAppend(args: seq<string>, more: seq<string>)
    ensures FirstSwitch(args + more)
         == if FirstSwitch(args) < |args| then FirstSwitch(args) else |args| + FirstSwitch(more)
    decreases |args|
  {
    if |args| == 0 {
      assert args + more == more;
    } else if !IsSwitch(args[0]) {
      assert (args + more)[1..] == args[1..] + more;
      FirstSwitchAppend(args[1..], more);
    }
  }

  /** Present arguments with no switch among them. */
  predicate NoSwitch(args: seq<Option<string>>) {
    FirstSwitch(Present(args)) == |Present(args)|
  }

  /**
   * When no switch comes before it, the switch `arg` decides the outcome on
   * its own: whatever precedes it without being a switch, and whatever
   * follows it, is ignored.
   */
  lemma SwitchDecides(before: seq<Option<string>>, arg: string, after: seq<Option<string>>)
    requires NoSwitch(before) && IsSwitch(arg)
    ensures ParseArgs(Some(before + [Some(arg)] + after)) == SwitchCommand(arg)
  {
    PresentAppend(before + [Some(arg)], after);
    PresentAppend(before, [Some(arg)]);
    assert Present([Some(arg)]) == [arg] by {
      assert [Some(arg)][..0] == [];
    }
    FirstSwitchAppend(Present(before) + [arg], Present(after));
    FirstSwitchAppend(Present(before), [arg]);
  }

  /** Null and empty arguments are skipped wherever they appear. */
  lemma AbsentSkipped(before: seq<Option<string>>, after: seq<Option<string>>, absent: Option<string>)
    requires absent.None? || absent.value == ""
    ensures ParseArgs(Some(before + [absent] + after)) == ParseArgs(Some(before + after))
  {
    PresentAppend(before + [absent], after);
    PresentAppend(before, [absent]);
    PresentAppend(before, after);
    assert Present([absent]) == [] by {
      assert [absent][..0] == [];
    }
    assert Present(before + [absent]) == Present(before);
  }

  /** A null argument array parses like an empty one: no positional arguments, so the arguments are invalid. */
  lemma NullArgs()
    ensures ParseArgs(None) == ParseArgs(Some([])) == Failure(InvalidArguments)
  {
  }

  /**
   * Without a switch, the positional arguments in order give the owner, the
   * repository and, when there are exactly three, the token; fewer than two
   * are invalid and a fourth or later one drops the token without an error.
   */
  lemma PositionalArguments(args: seq<Option<string>>)
    requires NoSwitch(args)
    ensures var present := Present(args);
            && (ParseArgs(Some(args)).Failure? <==> |present| < 2)
            && (ParseArgs(Some(args)).Failure? ==> ParseArgs(Some(args)).error == InvalidArguments)
            && (|present| >= 2 ==> ParseArgs(Some(args)).value.owner == present[0]
                                   && ParseArgs(Some(args)).value.repository == present[1]
                                   && (ParseArgs(Some(args)).value.token.Some? <==> |present| == 3)
                                   && (|present| == 3 ==> ParseArgs(Some(args)).value.token == Some(present[2])))
  {
  }

  /** Switches are matched without regard to case. */
  lemma SwitchCaseInsensitive(arg: string, other: string)
    requires ToLowerInvariant(arg) == ToLowerInvariant(other)
    ensures SwitchCommand(arg).Success? <==> SwitchCommand(other).Success?
    ensures SwitchCommand(arg).Success? ==> SwitchCommand(arg) == SwitchCommand(other)
  {
  }

  /** `--help` before a malformed switch gives help; the other way round the malformed switch is rejected. */
  lemma HelpAndMalformedSwitch()
    ensures ParseArgs(Some([Some("--help"), Some("-x")])) == Success(Help)
    ensures ParseArgs(Some([Some("-x"), Some("--help")])) == Failure(InvalidOption("-x"))
  {
    SwitchDecides([], "--help", [Some("-x")]);
    SwitchDecides([], "-x", [Some("--help")]);
    assert ToLowerInvariant("-x") == "-x";
  }

  /** Upper-case switches are recognized: `--HELP` and `-V`. */
  lemma UpperCaseSwitches()
    ensures ParseArgs(Some([Some("--HELP")])) == Success(Help)
    ensures ParseArgs(Some([Some("owner"), Some("-V")])) == Success(Version)
  {
    SwitchDecides([], "--HELP", []);
    assert ToLowerInvariant("--HELP") == "--help";
    assert NoSwitch([Some("owner")]) by {
      assert [Some("owner")][..0] == [];
    }
    SwitchDecides([Some("owner")], "-V", []);
    assert ToLowerInvariant("-V") == "-v";
  }

  /** Parses the program's arguments. */
  method Parse(args: Option<seq<Option<string>>>) returns (r: Result<Command, ParseError>)
    ensures r == ParseArgs(args)
  {
    var nonSwitchArgs: seq<string> := [];
    var list := args.GetOr([]);

    for i := 0 to |list|
      invariant nonSwitchArgs == Present(list[..i])
      invariant NoSwitch(list[..i])
    {
      var arg := list[i];
      assert list[..i + 1] == list[..i] + [arg];
      assert list[..i + 1][..i] == list[..i];
      if arg.None? || arg.value == "" {
        continue;
      }

      if arg.value[0] == '-' {
        SwitchDecides(list[..i], arg.value, list[i + 1..]);
        assert list == list[..i] + [arg] + list[i + 1..];
        var lowered := ToLowerInvariant(arg.value);
        if lowered == "--help" || lowered == "-h" {
          return Success(Help);
        } else if lowered == "--version" || lowered == "-v" {
          return Success(Version);
        } else {
          return Failure(InvalidOption(arg.value));
        }
      }

      FirstSwitchAppend(nonSwitchArgs, [arg.value]);
      nonSwitchArgs := nonSwitchArgs + [arg.value];
    }

    assert list[..|list|] == list;
    return BuildReportCommand(nonSwitchArgs);
  }
}
