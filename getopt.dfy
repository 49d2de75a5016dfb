/**
 * A simplified model of the C library's getopt(3), as the drop tool calls it.
 * Every option is an argument of its own, exactly "-x"; an option whose letter
 * is followed by ':' in the option string takes the NEXT argument as its value;
 * the first argument that is not option-like ends the scan (POSIX behaviour,
 * no permutation of arguments).
 */
module Getopt {
  import opened Wrappers

  /** What one call of getopt reports. */
  datatype Event =
    | Done                                                 // getopt returned EOF
    | Opt(letter: char, optarg: Option<string>, next: nat) // a declared option, and the new optind
    | Unknown(next: nat)                                   // getopt returned '?'

  /** An argument getopt treats as an option: '-' followed by at least one character. */
  predicate IsOptionArg(a: string)
  {
    |a| >= 2 && a[0] == '-'
  }

  /** Letter c is one of the option letters declared by optstring. */
  predicate Declares(optstring: string, c: char)
  {
    c != ':' && c in optstring
  }

  /** Letter c is declared with a following ':' in optstring, so it takes a value. */
  predicate TakesValue(optstring: string, c: char)
  {
    exists i :: 0 <= i < |optstring| - 1 && optstring[i] == c && optstring[i + 1] == ':'
  }

  /** One call of getopt(argc, argv, optstring) with the current optind. */
  function Next(argv: seq<string>, optind: nat, optstring: string): (ev: Event)
    ensures ev.Opt? ==> optind < ev.next <= |argv|
  {
    if optind >= |argv| || !IsOptionArg(argv[optind]) then Done
    else
      var a := argv[optind];
      if |a| != 2 || !Declares(optstring, a[1]) then Unknown(optind + 1)
      else if !TakesValue(optstring, a[1]) then Opt(a[1], None, optind + 1)
      else if optind + 1 < |argv| then Opt(a[1], Some(argv[optind + 1]), optind + 2)
      else Unknown(optind + 1)
  }

  /**
   * What getopt reports: EOF exactly at the end of argv or at a non-option
   * argument; a declared letter, spelled "-x", with the next argument as its
   * value when the letter takes one, and optind moved past what it consumed;
   * otherwise '?', for an undeclared letter, a malformed option or a missing
   * value.
   */
  lemma NextReports(argv: seq<string>, optind: nat, optstring: string)
    ensures var ev := Next(argv, optind, optstring);
            && (ev.Done? <==> optind >= |argv| || !IsOptionArg(argv[optind]))
            && (ev.Opt? ==>
                  && Declares(optstring, ev.letter)
                  && argv[optind] == ['-', ev.letter]
                  && (ev.optarg.Some? <==> TakesValue(optstring, ev.letter))
                  && ev.next == optind + (if ev.optarg.Some? then 2 else 1)
                  && (ev.optarg.Some? ==> ev.optarg.value == argv[optind + 1]))
            && (ev.Unknown? ==>
                  && |argv[optind]| >= 2 && argv[optind][0] == '-'
                  && (|argv[optind]| != 2 || !Declares(optstring, argv[optind][1])
                      || (TakesValue(optstring, argv[optind][1]) && optind + 1 == |argv|)))
  {
    var ev := Next(argv, optind, optstring);
    if ev.Opt? {
      assert argv[optind] == ['-', argv[optind][1]];
    }
  }
}
