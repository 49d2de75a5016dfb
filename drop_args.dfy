/**
 * Argument interpretation of the drop tool: the getopt loop of main over the
 * option string "ds:nV", followed by the check that exactly one positional
 * argument, the store path, remains.
 */
module DropArgs {
  import opened Wrappers
  import opened Getopt

  /** Environment flags from the engine's public header (single, distinct bits). */
  const MDBX_ACCEDE: bv32 := 0x4000_0000
  const MDBX_NOSUBDIR: bv32 := 0x4000

  const OptString := "ds:nV"

  /** What -n does to the environment flags. */
  function WithNoSubdir(flags: bv32): bv32
  {
    flags | MDBX_NOSUBDIR
  }

  /** A second -n changes nothing. */
  lemma NoSubdirIdempotent(flags: bv32)
    ensures WithNoSubdir(WithNoSubdir(flags)) == WithNoSubdir(flags)
  {
  }

  /** What main hands to the engine: store path, table name (None: the main table), flags, delete-vs-empty. */
  datatype Config = Config(envname: string, subname: Option<string>, envflags: bv32, delete: bool)

  /** How argument interpretation ends: usage() and failure, -V and success, or a run. */
  datatype Outcome = Usage | Version | Run(cfg: Config)

  /** The three variables the option loop updates in place. */
  datatype Settings = Settings(delete: bool, envflags: bv32, subname: Option<string>)

  const Initial := Settings(false, MDBX_ACCEDE, None)

  /** The letters "ds:nV" declares, and which of them takes a value. */
  lemma OptStringLetters(c: char)
    ensures Declares(OptString, c) <==> c == 'd' || c == 's' || c == 'n' || c == 'V'
    ensures TakesValue(OptString, c) <==> c == 's'
  {
    assert OptString[1] == 's' && OptString[2] == ':';
    if TakesValue(OptString, c) {
      var i :| 0 <= i < |OptString| - 1 && OptString[i] == c && OptString[i + 1] == ':';
      assert i == 1 by {
        assert i == 0 || i == 1 || i == 2 || i == 3;
      }
    }
  }

  /** Where one turn of the option loop leaves main. */
  datatype Progress = Finished(outcome: Outcome) | Continue(next: nat, s: Settings)

  /** One turn of the option loop with the variables holding s: getopt, then the switch on its answer. */
  function Turn(argv: seq<string>, optind: nat, s: Settings): (p: Progress)
    ensures p.Continue? ==> optind < p.next <= |argv|
  {
    match Next(argv, optind, OptString)
    case Done =>
      Finished(if optind == |argv| - 1 then Run(Config(argv[optind], s.subname, s.envflags, s.delete)) else Usage)
    case Unknown(_) => Finished(Usage)
    case Opt(c, optarg, next) =>
      if c == 'V' then Finished(Version)
      else if c == 'd' then Continue(next, s.(delete := true))
      else if c == 'n' then Continue(next, s.(envflags := WithNoSubdir(s.envflags)))
      else if c == 's' then Continue(next, s.(subname := optarg))
      else Finished(Usage)
  }

  /** The rest of the option loop from optind on: the reference the loop of ParseArgs is proved against. */
  function Scan(argv: seq<string>, optind: nat, s: Settings): Outcome
    decreases |argv| - optind
  {
    match Turn(argv, optind, s)
    case Finished(o) => o
    case Continue(next, s') => Scan(argv, next, s')
  }

  /** Scan after one getopt answer, case by case: the switch of the loop body. */
  lemma ScanOnEvent(argv: seq<string>, optind: nat, s: Settings)
    ensures Next(argv, optind, OptString).Done? ==>
              Scan(argv, optind, s)
              == if optind == |argv| - 1 then Run(Config(argv[optind], s.subname, s.envflags, s.delete)) else Usage
    ensures Next(argv, optind, OptString).Unknown? ==> Scan(argv, optind, s) == Usage
    ensures Next(argv, optind, OptString).Opt? ==>
              var ev := Next(argv, optind, OptString);
              Scan(argv, optind, s)
              == if ev.letter == 'V' then Version
                 else if ev.letter == 'd' then Scan(argv, ev.next, s.(delete := true))
                 else if ev.letter == 'n' then Scan(argv, ev.next, s.(envflags := WithNoSubdir(s.envflags)))
                 else if ev.letter == 's' then Scan(argv, ev.next, s.(subname := ev.optarg))
                 else Usage
  {
  }

  /** How main interprets its whole argument vector (argv[0] is the program name). */
  function Parse(argv: seq<string>): Outcome
  {
    if |argv| < 2 then Usage else Scan(argv, 1, Initial)
  }

  /** The option loop of main, with its configuration variables updated in place. */
  method ParseArgs(argv: seq<string>) returns (o: Outcome)
    ensures o == Parse(argv)
    ensures |argv| < 2 ==> o == Usage
    ensures o.Run? ==> o.cfg.envname == argv[|argv| - 1]
  {
    if |argv| < 2 {
      return Usage;
    }
    var delete := false;
    var envflags := MDBX_ACCEDE;
    var subname: Option<string> := None;
    var optind: nat := 1;
    var ev := Next(argv, optind, OptString);
    while !ev.Done?
      invariant optind <= |argv|
      invariant ev == Next(argv, optind, OptString)
      invariant Scan(argv, optind, Settings(delete, envflags, subname)) == Parse(argv)
      decreases |argv| - optind
    {
      ScanOnEvent(argv, optind, Settings(delete, envflags, subname));
      match ev {
        case Unknown(_) =>
          return Usage;
        case Opt(c, optarg, next) =>
          if c == 'V' {
            return Version;
          } else if c == 'd' {
            delete := true;
          } else if c == 'n' {
            envflags := WithNoSubdir(envflags);
          } else if c == 's' {
            subname := optarg;
          } else {
            return Usage;
          }
          optind := next;
      }
      ev := Next(argv, optind, OptString);
    }
    ScanOnEvent(argv, optind, Settings(delete, envflags, subname));
    if optind != |argv| - 1 {
      return Usage;
    }
    o := Run(Config(argv[optind], subname, envflags, delete));
  }

  // ---------------------------------------------------------------------
  // A well-formed command line, written as a list of switches.

  /** One command-line switch of the tool. */
  datatype Switch = DeleteSwitch | NoSubdirSwitch | VersionSwitch | SubnameSwitch(name: string)

  /** The arguments that spell one switch. */
  function Word(w: Switch): seq<string>
  {
    match w
    case DeleteSwitch => ["-d"]
    case NoSubdirSwitch => ["-n"]
    case VersionSwitch => ["-V"]
    case SubnameSwitch(name) => ["-s", name]
  }

  /** The arguments that spell a list of switches, in order. */
  function Render(ws: seq<Switch>): seq<string>
  {
    if ws == [] then [] else Word(ws[0]) + Render(ws[1..])
  }

  /** The table named by the last "-s" of ws; None when ws names none. */
  function LastSubname(ws: seq<Switch>): (r: Option<string>)
    ensures r.None? <==> forall i :: 0 <= i < |ws| ==> !ws[i].SubnameSwitch?
    ensures r.Some? ==>
              exists i :: 0 <= i < |ws| && ws[i] == SubnameSwitch(r.value)
                          && forall j :: i < j < |ws| ==> !ws[j].SubnameSwitch?
    decreases |ws|
  {
    if ws == [] then None
    else
      match LastSubname(ws[1..])
      case Some(n) =>
        var i :| 0 <= i < |ws[1..]| && ws[1..][i] == SubnameSwitch(n)
                 && forall j :: i < j < |ws[1..]| ==> !ws[1..][j].SubnameSwitch?;
        assert ws[i + 1] == SubnameSwitch(n);
        Some(n)
      case None =>
        if ws[0].SubnameSwitch? then Some(ws[0].name) else None
  }

  /** The configuration a list of switches describes, independently of the loop. */
  function Configure(ws: seq<Switch>, path: string): Config
  {
    Config(path, LastSubname(ws),
           if NoSubdirSwitch in ws then WithNoSubdir(MDBX_ACCEDE) else MDBX_ACCEDE,
           DeleteSwitch in ws)
  }

  /** What the body of the option loop does to the variables for one switch other than -V. */
  function Apply(s: Settings, w: Switch): Settings
  {
    match w
    case DeleteSwitch => s.(delete := true)
    case NoSubdirSwitch => s.(envflags := WithNoSubdir(s.envflags))
    case SubnameSwitch(name) => s.(subname := Some(name))
    case VersionSwitch => s
  }

  /** The variables after the loop has consumed the switches ws in order, starting from s. */
  function After(s: Settings, ws: seq<Switch>): Settings
    decreases |ws|
  {
    if ws == [] then s else After(Apply(s, ws[0]), ws[1..])
  }

  /**
   * What consuming a list of switches amounts to, whatever their order: delete
   * is set iff -d occurs, NOSUBDIR is or-ed in iff -n occurs, and the table is
   * the last -s value (the earlier one when there is none).
   */
  lemma {:induction false} AfterSummary(s: Settings, ws: seq<Switch>)
    ensures After(s, ws)
            == Settings(s.delete || DeleteSwitch in ws,
                        if NoSubdirSwitch in ws then WithNoSubdir(s.envflags) else s.envflags,
                        if LastSubname(ws).Some? then LastSubname(ws) else s.subname)
    decreases |ws|
  {
    if ws != [] {
      var w, rest := ws[0], ws[1..];
      assert ws == [w] + rest;
      AfterSummary(Apply(s, w), rest);
      LastSubnameCons(ws);
      NoSubdirIdempotent(s.envflags);
    }
  }

  lemma AfterInitial(ws: seq<Switch>, path: string)
    ensures var t := After(Initial, ws); Config(path, t.subname, t.envflags, t.delete) == Configure(ws, path)
  {
    AfterSummary(Initial, ws);
  }

  lemma LastSubnameCons(ws: seq<Switch>)
    requires ws != []
    ensures LastSubname([ws[0]]) == if ws[0].SubnameSwitch? then Some(ws[0].name) else None
    ensures LastSubname(ws) == if LastSubname(ws[1..]).Some? then LastSubname(ws[1..]) else LastSubname([ws[0]])
  {
    assert [ws[0]][1..] == [];
  }

  /** What the loop does with one switch other than -V. */
  lemma ScanWord(argv: seq<string>, i: nat, w: Switch, s: Settings)
    requires w != VersionSwitch
    requires i + |Word(w)| <= |argv| && argv[i..i + |Word(w)|] == Word(w)
    ensures Turn(argv, i, s) == Continue(i + |Word(w)|, Apply(s, w))
    ensures Scan(argv, i, s) == Scan(argv, i + |Word(w)|, Apply(s, w))
  {
    assert argv[i] == Word(w)[0];
    OptStringLetters(argv[i][1]);
    if w.SubnameSwitch? {
      assert argv[i + 1] == Word(w)[1];
    }
  }

  /** The loop consumes a rendered switch list without -V in one go. */
  lemma {:induction false} ScanRender(argv: seq<string>, i: nat, ws: seq<Switch>, s: Settings)
    requires VersionSwitch !in ws
    requires i + |Render(ws)| <= |argv| && argv[i..i + |Render(ws)|] == Render(ws)
    ensures Scan(argv, i, s) == Scan(argv, i + |Render(ws)|, After(s, ws))
    decreases |ws|
  {
    if ws != [] {
      var w, rest := Word(ws[0]), ws[1..];
      var j := i + |w|;
      var s1 := Apply(s, ws[0]);
      assert Render(ws) == w + Render(rest);
      assert Scan(argv, i, s) == Scan(argv, j, s1) by {
        assert argv[i..j] == Render(ws)[..|w|];
        assert ws[0] in ws;
        ScanWord(argv, i, ws[0], s);
      }
      assert Scan(argv, j, s1) == Scan(argv, j + |Render(rest)|, After(s1, rest)) by {
        assert argv[j..j + |Render(rest)|] == Render(ws)[|w|..];
        assert forall x :: x in rest ==> x in ws;
        ScanRender(argv, j, rest, s1);
      }
    }
  }

  lemma PrefixRender(prog: string, ws: seq<Switch>, tail: seq<string>)
    ensures var argv := [prog] + Render(ws) + tail;
            1 + |Render(ws)| <= |argv| && argv[1..1 + |Render(ws)|] == Render(ws)
            && argv[1 + |Render(ws)|..] == tail
  {
  }

  // ---------------------------------------------------------------------
  // What the loop accepts and rejects.

  /** Switches without -V followed by one non-option path configure a run, exactly as Configure says. */
  lemma RunRoundTrip(prog: string, ws: seq<Switch>, path: string)
    requires VersionSwitch !in ws
    requires !IsOptionArg(path)
    ensures Parse([prog] + Render(ws) + [path]) == Run(Configure(ws, path))
  {
    var argv := [prog] + Render(ws) + [path];
    PrefixRender(prog, ws, [path]);
    ScanRender(argv, 1, ws, Initial);
    ScanOnEvent(argv, 1 + |Render(ws)|, After(Initial, ws));
    AfterInitial(ws, path);
  }

  /** A run is configured only by such a command line: the converse of RunRoundTrip. */
  lemma RunShape(argv: seq<string>) returns (ws: seq<Switch>)
    requires Parse(argv).Run?
    ensures VersionSwitch !in ws
    ensures var path := Parse(argv).cfg.envname;
            && !IsOptionArg(path)
            && argv == [argv[0]] + Render(ws) + [path]
            && Parse(argv).cfg == Configure(ws, path)
  {
    assert Parse(argv) == Scan(argv, 1, Initial);
    ws := ScanRunShape(argv, 1, Initial);
    var path := argv[|argv| - 1];
    AfterInitial(ws, path);
    assert argv == [argv[0]] + argv[1..|argv| - 1] + [path] by {
      assert argv == argv[..1] + argv[1..|argv| - 1] + argv[|argv| - 1..];
    }
  }

  /** A switch spelled at i, followed by a rendered list up to k, spells their concatenation. */
  lemma RenderSlice(argv: seq<string>, i: nat, k: nat, w: Switch, rest: seq<Switch>)
    requires i + |Word(w)| <= k <= |argv|
    requires argv[i..i + |Word(w)|] == Word(w) && argv[i + |Word(w)|..k] == Render(rest)
    ensures argv[i..k] == Render([w] + rest)
    ensures VersionSwitch !in [w] + rest <==> w != VersionSwitch && VersionSwitch !in rest
  {
    var ws := [w] + rest;
    assert ws[0] == w && ws[1..] == rest;
    assert argv[i..k] == argv[i..i + |Word(w)|] + argv[i + |Word(w)|..k];
  }

  /** After on a switch list that starts with w. */
  lemma AfterConsOne(s: Settings, w: Switch, rest: seq<Switch>)
    ensures After(s, [w] + rest) == After(Apply(s, w), rest)
  {
    var ws := [w] + rest;
    assert ws[0] == w && ws[1..] == rest;
  }

  /** The switch that getopt just reported, when it is not -V, and what consuming it does. */
  lemma ReportedSwitch(argv: seq<string>, i: nat, s: Settings) returns (w: Switch)
    requires Next(argv, i, OptString).Opt? && Next(argv, i, OptString).letter != 'V'
    ensures w != VersionSwitch
    ensures Next(argv, i, OptString).next == i + |Word(w)|
    ensures argv[i..i + |Word(w)|] == Word(w)
    ensures Turn(argv, i, s) == Continue(i + |Word(w)|, Apply(s, w))
    ensures Scan(argv, i, s) == Scan(argv, i + |Word(w)|, Apply(s, w))
  {
    var ev := Next(argv, i, OptString);
    NextReports(argv, i, OptString);
    OptStringLetters(ev.letter);
    w := if ev.letter == 'd' then DeleteSwitch
         else if ev.letter == 'n' then NoSubdirSwitch
         else SubnameSwitch(ev.optarg.value);
    assert argv[i..ev.next] == Word(w) by {
      if ev.letter == 's' {
        assert ev.next == i + 2;
        assert argv[i..i + 2] == [argv[i], argv[i + 1]];
      } else {
        assert !TakesValue(OptString, ev.letter);
        assert ev.next == i + 1;
        assert argv[i..i + 1] == [argv[i]];
      }
    }
    ScanWord(argv, i, w, s);
  }

  lemma {:induction false} ScanRunShape(argv: seq<string>, i: nat, s: Settings) returns (ws: seq<Switch>)
    requires 1 <= i <= |argv|
    requires Scan(argv, i, s).Run?
    ensures VersionSwitch !in ws
    ensures i + |Render(ws)| == |argv| - 1 && argv[i..|argv| - 1] == Render(ws)
    ensures !IsOptionArg(argv[|argv| - 1])
    ensures var t := After(s, ws);
            Scan(argv, i, s) == Run(Config(argv[|argv| - 1], t.subname, t.envflags, t.delete))
    decreases |argv| - i, 1
  {
    ScanOnEvent(argv, i, s);
    if Next(argv, i, OptString).Done? {
      ws := [];
      assert After(s, ws) == s;
    } else {
      ws := ScanRunShapeOpt(argv, i, s);
    }
  }

  lemma {:induction false} ScanRunShapeOpt(argv: seq<string>, i: nat, s: Settings) returns (ws: seq<Switch>)
    requires 1 <= i <= |argv|
    requires Scan(argv, i, s).Run? && !Next(argv, i, OptString).Done?
    ensures VersionSwitch !in ws
    ensures i + |Render(ws)| == |argv| - 1 && argv[i..|argv| - 1] == Render(ws)
    ensures !IsOptionArg(argv[|argv| - 1])
    ensures var t := After(s, ws);
            Scan(argv, i, s) == Run(Config(argv[|argv| - 1], t.subname, t.envflags, t.delete))
    decreases |argv| - i, 0
  {
    ScanOnEvent(argv, i, s);
    var w := ReportedSwitch(argv, i, s);
    var rest := ScanRunShape(argv, i + |Word(w)|, Apply(s, w));
    ws := [w] + rest;
    RenderSlice(argv, i, |argv| - 1, w, rest);
    AfterConsOne(s, w, rest);
  }

  /** -V ends interpretation with success however the command line continues. */
  lemma VersionShortCircuits(prog: string, ws: seq<Switch>, rest: seq<string>)
    requires VersionSwitch !in ws
    ensures Parse([prog] + Render(ws) + ["-V"] + rest) == Version
  {
    var argv := [prog] + Render(ws) + ["-V"] + rest;
    assert argv == [prog] + Render(ws) + (["-V"] + rest);
    PrefixRender(prog, ws, ["-V"] + rest);
    ScanRender(argv, 1, ws, Initial);
    ScanOnEvent(argv, 1 + |Render(ws)|, After(Initial, ws));
    OptStringLetters('V');
  }

  /** Version is reached only through a -V after well-formed switches: the converse. */
  lemma VersionShape(argv: seq<string>) returns (ws: seq<Switch>, rest: seq<string>)
    requires Parse(argv) == Version
    ensures VersionSwitch !in ws
    ensures argv == [argv[0]] + Render(ws) + ["-V"] + rest
  {
    var i;
    ws, i := ScanVersionShape(argv, 1, Initial);
    rest := argv[i + 1..];
    assert argv == [argv[0]] + argv[1..i] + [argv[i]] + argv[i + 1..];
  }

  lemma {:induction false} ScanVersionShape(argv: seq<string>, i: nat, s: Settings) returns (ws: seq<Switch>, j: nat)
    requires 1 <= i <= |argv|
    requires Scan(argv, i, s) == Version
    ensures VersionSwitch !in ws
    ensures i + |Render(ws)| == j < |argv| && argv[i..j] == Render(ws) && argv[j] == "-V"
    decreases |argv| - i
  {
    ScanOnEvent(argv, i, s);
    if Next(argv, i, OptString).letter == 'V' {
      ws, j := [], i;
    } else {
      var w := ReportedSwitch(argv, i, s);
      var next := i + |Word(w)|;
      var rest;
      rest, j := ScanVersionShape(argv, next, Apply(s, w));
      ws := [w] + rest;
      RenderSlice(argv, i, j, w, rest);
    }
  }

  /** An option-like argument other than -d, -n, -V and -s (such as -q) leads to usage(). */
  lemma UnknownOptionRejected(prog: string, ws: seq<Switch>, bad: string, rest: seq<string>)
    requires VersionSwitch !in ws
    requires IsOptionArg(bad) && bad != "-d" && bad != "-n" && bad != "-V" && bad != "-s"
    ensures Parse([prog] + Render(ws) + [bad] + rest) == Usage
  {
    var argv := [prog] + Render(ws) + [bad] + rest;
    assert argv == [prog] + Render(ws) + ([bad] + rest);
    PrefixRender(prog, ws, [bad] + rest);
    ScanRender(argv, 1, ws, Initial);
    var k := 1 + |Render(ws)|;
    assert argv[k] == bad;
    assert Next(argv, k, OptString).Unknown? by {
      NextReports(argv, k, OptString);
      OptStringLetters(bad[1]);
      if |bad| == 2 {
        assert bad == ['-', bad[1]];
      }
    }
    ScanOnEvent(argv, k, After(Initial, ws));
  }

  /** A trailing -s without its table name leads to usage(). */
  lemma MissingSubnameRejected(prog: string, ws: seq<Switch>)
    requires VersionSwitch !in ws
    ensures Parse([prog] + Render(ws) + ["-s"]) == Usage
  {
    var argv := [prog] + Render(ws) + ["-s"];
    PrefixRender(prog, ws, ["-s"]);
    ScanRender(argv, 1, ws, Initial);
    ScanOnEvent(argv, 1 + |Render(ws)|, After(Initial, ws));
    OptStringLetters('s');
  }

  /** After the switches, no positional argument or more than one leads to usage(). */
  lemma OnePositionalRequired(prog: string, ws: seq<Switch>, tail: seq<string>)
    requires VersionSwitch !in ws
    requires tail == [] || (!IsOptionArg(tail[0]) && |tail| >= 2)
    ensures Parse([prog] + Render(ws) + tail) == Usage
  {
    var argv := [prog] + Render(ws) + tail;
    PrefixRender(prog, ws, tail);
    ScanRender(argv, 1, ws, Initial);
    ScanOnEvent(argv, 1 + |Render(ws)|, After(Initial, ws));
  }
}
