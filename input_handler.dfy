// InputHandler (InputHandler.h, InputHandler.cpp): adds the default
// parameters of the search to a Parameters object and overwrites them from
// the command line. The command line is the sequence argv of its arguments,
// argv[0] being the program name; PrintUsage, which only writes to the
// console, is not part of this model.

module InputHandlers {
  import opened ParameterSets

  const IntMin: int := -0x8000_0000
  const IntMax: int := 0x7FFF_FFFF

  /** The help texts of the default parameters. */
  const SigmaHelp: string := "\t -s \t width for submatrices Z1 and Z2 (default is 20)"
  const IterHelp: string := "\t -i \t number of iterations (default is 20)"
  const MinimumHelp: string := "\t -m \t minimum weight as stopping criteria (default is 0)"
  const OutputHelp: string := "\t -o \t output file for minimum weight vector (default is default.cw)"
  const DOutputHelp: string := "\t -d \t disable output (default is enabled)"
  const PermuteHelp: string := "\t -pc \t enable random permutation of the columns (default is disabled)"
  const CwFileHelp: string := "\t -cw \t read a code word file"
  const CmFileHelp: string := "\t -cm \t read a file containing a code matrix"

  /** The characters operator>> skips before a number. */
  predicate IsSpace(c: char)
  {
    c == ' ' || c == '\t' || c == '\n' || c == '\U{B}' || c == '\U{C}' || c == '\r'
  }

  predicate IsDigit(c: char)
  {
    '0' <= c <= '9'
  }

  function SkipSpace(s: string): (r: string)
    ensures |r| <= |s| && r == s[|s| - |r|..]
    ensures |r| > 0 ==> !IsSpace(r[0])
  {
    if |s| > 0 && IsSpace(s[0]) then SkipSpace(s[1..]) else s
  }

  /** The number of leading decimal digits of s. */
  function DigitPrefix(s: string): (n: nat)
    ensures n <= |s| && forall i :: 0 <= i < n ==> IsDigit(s[i])
    ensures n < |s| ==> !IsDigit(s[n])
  {
    if |s| > 0 && IsDigit(s[0]) then 1 + DigitPrefix(s[1..]) else 0
  }

  function DigitOf(c: char): (d: nat)
    requires IsDigit(c)
    ensures d < 10
  {
    c as int - '0' as int
  }

  /** The value of a string of decimal digits, the last digit the least
      significant. */
  function DigitsValue(s: string): nat
    requires forall i :: 0 <= i < |s| ==> IsDigit(s[i])
  {
    if |s| == 0 then 0 else 10 * DigitsValue(s[..|s| - 1]) + DigitOf(s[|s| - 1])
  }

  /** The value of the leading digits of u. */
  function LeadingValue(u: string): nat
  {
    DigitsValue(u[..DigitPrefix(u)])
  }

  function Clamp(v: int): (r: int)
    ensures IntMin <= r <= IntMax
    ensures IntMin <= v <= IntMax ==> r == v
  {
    if v < IntMin then IntMin else if v > IntMax then IntMax else v
  }

  /** The number after an optional sign at the head of t. */
  function ParseSigned(t: string): (r: int)
    ensures IntMin <= r <= IntMax
  {
    var negative := |t| > 0 && t[0] == '-';
    var u := if |t| > 0 && (t[0] == '-' || t[0] == '+') then t[1..] else t;
    var m: int := LeadingValue(u);
    if DigitPrefix(u) == 0 then 0 else Clamp(if negative then -m else m)
  }

  /** What `stream >> dValue` leaves in the int dValue: leading white space
      skipped, an optional sign, then the longest run of decimal digits; no
      digit gives 0, and a value outside the range of int is clamped to
      its nearest end. */
  function ParseInt(s: string): (r: int)
    ensures IntMin <= r <= IntMax
  {
    ParseSigned(SkipSpace(s))
  }

  /** The conversion of the int to the uint64_t parameter value: a negative
      value wraps around modulo 2^64. */
  function ToUint64(v: int): (r: Uint64)
    requires IntMin <= v <= IntMax
    ensures (r - v) % TwoTo64 == 0
  {
    if v < 0 then v + TwoTo64 else v
  }

  /** The decimal representation of n, without sign or leading zeros. */
  function Decimal(n: nat): (s: string)
    ensures |s| > 0 && forall i :: 0 <= i < |s| ==> IsDigit(s[i])
  {
    var c := ('0' as int + n % 10) as char;
    if n < 10 then [c] else Decimal(n / 10) + [c]
  }

  lemma {:induction false} DecimalValue(n: nat)
    ensures DigitsValue(Decimal(n)) == n
  {
    var s := Decimal(n);
    if n >= 10 {
      DecimalValue(n / 10);
      assert s[..|s| - 1] == Decimal(n / 10);
    }
  }

  lemma {:induction false} DigitPrefixAll(s: string)
    requires forall i :: 0 <= i < |s| ==> IsDigit(s[i])
    ensures DigitPrefix(s) == |s|
  {
    if |s| > 0 {
      DigitPrefixAll(s[1..]);
    }
  }

  /** The digits of n are read back as n. */
  lemma LeadingDecimal(n: nat)
    ensures DigitPrefix(Decimal(n)) > 0 && LeadingValue(Decimal(n)) == n
  {
    var u := Decimal(n);
    DigitPrefixAll(u);
    assert u[..|u|] == u;
    DecimalValue(n);
  }

  /** A value of int written in decimal is read back as that value. */
  lemma ParseIntDecimal(v: int)
    requires IntMin <= v <= IntMax
    ensures ParseInt(if v < 0 then "-" + Decimal(-v) else Decimal(v)) == v
  {
    var n: nat := if v < 0 then -v else v;
    var s := if v < 0 then "-" + Decimal(n) else Decimal(n);
    assert !IsSpace(s[0]);
    assert SkipSpace(s) == s;
    LeadingDecimal(n);
    if v < 0 {
      assert s[1..] == Decimal(n);
    }
  }

  /** What the parser is left with after argument i is read as a name. */
  datatype Outcome = Outcome(error: bool, integers: map<string, Uint64>, strings: map<string, string>)

  /** The position of the next argument read as a name, when argument i is
      one: "-h" is alone; an integer parameter and a string parameter each
      take the following argument. */
  function NextName(argv: seq<string>, i: nat, ints: set<string>, strs: set<string>): (j: nat)
    requires i < |argv|
    ensures i < j
  {
    var name := argv[i];
    if name == "-h" then i + 1
    else
      var k := if name in ints then i + 1 else i;
      (if name in strs then k + 1 else k) + 1
  }

  /** Argument i, read as a name, sets the error flag: it is "-h", or no
      parameter with that name is followed by a value. */
  predicate Rejected(argv: seq<string>, i: nat, ints: set<string>, strs: set<string>)
    requires i < |argv|
  {
    var name := argv[i];
    name == "-h" ||
    !((name in ints && i + 1 < |argv|) ||
      (name in strs && (if name in ints then i + 2 else i + 1) < |argv|))
  }

  /** The values after argument i is read as a name: an integer parameter
      of that name takes the next argument, read by ParseInt, and then a
      string parameter of that name the argument after that. */
  function ReadName(argv: seq<string>, i: nat, ints: map<string, Uint64>, strs: map<string, string>): (r: Outcome)
    requires i < |argv|
    ensures r.error == Rejected(argv, i, ints.Keys, strs.Keys)
    ensures r.integers.Keys == ints.Keys && r.strings.Keys == strs.Keys
    ensures forall n :: n in ints && n != argv[i] ==> r.integers[n] == ints[n]
    ensures forall n :: n in strs && n != argv[i] ==> r.strings[n] == strs[n]
  {
    var name := argv[i];
    var known := name != "-h";
    var ints1 := if known && name in ints && i + 1 < |argv|
                 then ints[name := ToUint64(ParseInt(argv[i + 1]))] else ints;
    var k := if known && name in ints then i + 1 else i;
    var strs1 := if known && name in strs && k + 1 < |argv| then strs[name := argv[k + 1]] else strs;
    Outcome(Rejected(argv, i, ints.Keys, strs.Keys), ints1, strs1)
  }

  /** ParseSettings from argument i on, with the parameter values ints and
      strs read so far. */
  function Parse(argv: seq<string>, i: nat, ints: map<string, Uint64>, strs: map<string, string>): Outcome
    decreases |argv| - i
  {
    if i >= |argv| then Outcome(false, ints, strs)
    else
      var s := ReadName(argv, i, ints, strs);
      var o := Parse(argv, NextName(argv, i, ints.Keys, strs.Keys), s.integers, s.strings);
      o.(error := o.error || s.error)
  }

  /** One argument read as a name, then the rest. */
  lemma ParseStep(argv: seq<string>, i: nat, ints: map<string, Uint64>, strs: map<string, string>)
    requires i < |argv|
    ensures var r := ReadName(argv, i, ints, strs);
            var o := Parse(argv, NextName(argv, i, ints.Keys, strs.Keys), r.integers, r.strings);
            Parse(argv, i, ints, strs) == o.(error := o.error || r.error)
  {
  }

  /** The positions of the arguments read as names, from argument i on; they
      depend only on the names of the parameters. */
  function Names(argv: seq<string>, i: nat, ints: set<string>, strs: set<string>): (r: seq<nat>)
    ensures forall t :: 0 <= t < |r| ==> i <= r[t] < |argv|
    decreases |argv| - i
  {
    if i >= |argv| then [] else [i] + Names(argv, NextName(argv, i, ints, strs), ints, strs)
  }

  /** Parsing adds no parameter and removes none: only names already
      present are accepted. */
  lemma {:induction false} ParseKeepsNames(argv: seq<string>, i: nat, ints: map<string, Uint64>, strs: map<string, string>)
    ensures Parse(argv, i, ints, strs).integers.Keys == ints.Keys
    ensures Parse(argv, i, ints, strs).strings.Keys == strs.Keys
    decreases |argv| - i
  {
    if i < |argv| {
      var r := ReadName(argv, i, ints, strs);
      ParseKeepsNames(argv, NextName(argv, i, ints.Keys, strs.Keys), r.integers, r.strings);
    }
  }

  /** A rejected argument among those read as names makes the result true:
      "-h", an unknown name, or a name without a value. */
  lemma {:induction false} ParseRejects(argv: seq<string>, i: nat, ints: map<string, Uint64>, strs: map<string, string>, t: nat)
    requires t < |Names(argv, i, ints.Keys, strs.Keys)|
    requires Rejected(argv, Names(argv, i, ints.Keys, strs.Keys)[t], ints.Keys, strs.Keys)
    ensures Parse(argv, i, ints, strs).error
    decreases t
  {
    var r := ReadName(argv, i, ints, strs);
    var j := NextName(argv, i, ints.Keys, strs.Keys);
    ParseStep(argv, i, ints, strs);
    if t > 0 {
      var rest := Names(argv, j, ints.Keys, strs.Keys);
      assert Names(argv, j, r.integers.Keys, r.strings.Keys) == rest;
      assert rest[t - 1] == Names(argv, i, ints.Keys, strs.Keys)[t];
      ParseRejects(argv, j, r.integers, r.strings, t - 1);
    }
  }

  /** Conversely, the result is false when no argument read as a name is
      rejected. */
  lemma {:induction false} ParseAccepts(argv: seq<string>, i: nat, ints: map<string, Uint64>, strs: map<string, string>)
    requires forall t :: 0 <= t < |Names(argv, i, ints.Keys, strs.Keys)| ==>
               !Rejected(argv, Names(argv, i, ints.Keys, strs.Keys)[t], ints.Keys, strs.Keys)
    ensures !Parse(argv, i, ints, strs).error
    decreases |argv| - i
  {
    if i < |argv| {
      var r := ReadName(argv, i, ints, strs);
      var j := NextName(argv, i, ints.Keys, strs.Keys);
      ParseStep(argv, i, ints, strs);
      var names := Names(argv, i, ints.Keys, strs.Keys);
      var rest := Names(argv, j, ints.Keys, strs.Keys);
      assert names == [i] + rest;
      assert Names(argv, j, r.integers.Keys, r.strings.Keys) == rest;
      forall t | 0 <= t < |rest| ensures !Rejected(argv, rest[t], r.integers.Keys, r.strings.Keys) {
        assert rest[t] == names[t + 1];
        assert !Rejected(argv, names[t + 1], ints.Keys, strs.Keys);
        assert r.integers.Keys == ints.Keys && r.strings.Keys == strs.Keys;
      }
      ParseAccepts(argv, j, r.integers, r.strings);
      assert !Rejected(argv, names[0], ints.Keys, strs.Keys);
    }
  }

  /** The last argument, when it is read as a name, is always rejected and
      changes no value: a name given last has no value to take. */
  lemma ParseLastName(argv: seq<string>, ints: map<string, Uint64>, strs: map<string, string>)
    requires |argv| > 0
    ensures Parse(argv, |argv| - 1, ints, strs) == Outcome(true, ints, strs)
  {
    assert Parse(argv, NextName(argv, |argv| - 1, ints.Keys, strs.Keys), ints, strs) == Outcome(false, ints, strs);
  }

  /** A parameter whose name does not occur from argument i on keeps its
      value. */
  lemma {:induction false} ParseUntouched(argv: seq<string>, i: nat, ints: map<string, Uint64>, strs: map<string, string>, name: string)
    requires forall t :: i <= t < |argv| ==> argv[t] != name
    ensures name in ints ==> name in Parse(argv, i, ints, strs).integers && Parse(argv, i, ints, strs).integers[name] == ints[name]
    ensures name in strs ==> name in Parse(argv, i, ints, strs).strings && Parse(argv, i, ints, strs).strings[name] == strs[name]
    decreases |argv| - i
  {
    if i < |argv| {
      var r := ReadName(argv, i, ints, strs);
      ParseUntouched(argv, NextName(argv, i, ints.Keys, strs.Keys), r.integers, r.strings, name);
    }
  }

  /** An integer parameter named at argument i and followed by a value ends
      up with that value read as an int and converted to uint64_t, unless
      it is named again later. */
  lemma ParseSetsInteger(argv: seq<string>, i: nat, ints: map<string, Uint64>, strs: map<string, string>)
    requires i + 1 < |argv| && argv[i] != "-h" && argv[i] in ints && argv[i] !in strs
    requires forall t :: i + 2 <= t < |argv| ==> argv[t] != argv[i]
    ensures argv[i] in Parse(argv, i, ints, strs).integers
    ensures Parse(argv, i, ints, strs).integers[argv[i]] == ToUint64(ParseInt(argv[i + 1]))
  {
    var ints1 := ints[argv[i] := ToUint64(ParseInt(argv[i + 1]))];
    assert NextName(argv, i, ints.Keys, strs.Keys) == i + 2;
    assert ReadName(argv, i, ints, strs) == Outcome(false, ints1, strs);
    ParseStep(argv, i, ints, strs);
    ParseUntouched(argv, i + 2, ints1, strs, argv[i]);
  }

  /** A string parameter named at argument i and followed by a value ends up
      with that value, unless it is named again later. */
  lemma ParseSetsString(argv: seq<string>, i: nat, ints: map<string, Uint64>, strs: map<string, string>)
    requires i + 1 < |argv| && argv[i] != "-h" && argv[i] !in ints && argv[i] in strs
    requires forall t :: i + 2 <= t < |argv| ==> argv[t] != argv[i]
    ensures argv[i] in Parse(argv, i, ints, strs).strings
    ensures Parse(argv, i, ints, strs).strings[argv[i]] == argv[i + 1]
  {
    var strs1 := strs[argv[i] := argv[i + 1]];
    assert NextName(argv, i, ints.Keys, strs.Keys) == i + 2;
    assert ReadName(argv, i, ints, strs) == Outcome(false, ints, strs1);
    ParseStep(argv, i, ints, strs);
    ParseUntouched(argv, i + 2, ints, strs1, argv[i]);
  }

  class InputHandler {
    const parameters: Parameters

    /** The constructor adds the eight default parameters, with their values
        and help texts, to p. */
    constructor(p: Parameters)
      modifies p
      ensures parameters == p
      ensures p.integers == old(p.integers)[Sigma := 20][Iter := 20][Minimum := 0][DOutput := 0][Permute := 0]
      ensures p.strings == old(p.strings)[Output := "default.cw"][CwFile := ""][CmFile := ""]
      ensures p.helpTexts == old(p.helpTexts)
                [Sigma := SigmaHelp]
                [Iter := IterHelp]
                [Minimum := MinimumHelp]
                [Output := OutputHelp]
                [DOutput := DOutputHelp]
                [Permute := PermuteHelp]
                [CwFile := CwFileHelp]
                [CmFile := CmFileHelp]
    {
      parameters := p;
      new;
      p.AddIntegerParameter(Sigma, 20, SigmaHelp);
      p.AddIntegerParameter(Iter, 20, IterHelp);
      p.AddIntegerParameter(Minimum, 0, MinimumHelp);
      p.AddStringParameter(Output, "default.cw", OutputHelp);
      p.AddIntegerParameter(DOutput, 0, DOutputHelp);
      p.AddIntegerParameter(Permute, 0, PermuteHelp);
      p.AddStringParameter(CwFile, "", CwFileHelp);
      p.AddStringParameter(CmFile, "", CmFileHelp);
    }

    /** One pass of the loop of ParseSettings, at argument i < |argv|: the
        argument is read as a name, a known one takes its value; returns
        whether the argument is rejected and where the next name is. */
    method ReadArgument(argv: seq<string>, i: nat) returns (rejected: bool, next: nat)
      modifies parameters
      requires i < |argv|
      ensures var r := ReadName(argv, i, old(parameters.integers), old(parameters.strings));
              rejected == r.error && parameters.integers == r.integers && parameters.strings == r.strings
      ensures next == NextName(argv, i, old(parameters.integers).Keys, old(parameters.strings).Keys)
      ensures parameters.helpTexts == old(parameters.helpTexts)
    {
      var name := argv[i];
      next := i;
      if name == "-h" {
        rejected := true;
      } else {
        var matched := false;
        if name in parameters.integers {
          next := next + 1;
          if next < |argv| {
            var value := ParseInt(argv[next]);
            parameters.SetIntegerParameter(name, ToUint64(value));
            matched := true;
          }
        }
        if name in parameters.strings {
          next := next + 1;
          if next < |argv| {
            parameters.SetStringParameter(name, argv[next]);
            matched := true;
          }
        }
        rejected := !matched;
      }
      next := next + 1;
    }

    /** ParseSettings(argc, argv): every argument from argv[1] on is read as
        a name; a known name takes the next argument as its value, and the
        result is true when an argument is "-h" or is not a known name
        followed by a value. */
    method ParseSettings(argv: seq<string>) returns (error: bool)
      modifies parameters
      ensures Outcome(error, parameters.integers, parameters.strings) ==
              Parse(argv, 1, old(parameters.integers), old(parameters.strings))
      ensures parameters.helpTexts == old(parameters.helpTexts)
      ensures |argv| <= 1 ==> !error && parameters.integers == old(parameters.integers) &&
                              parameters.strings == old(parameters.strings)
    {
      ghost var goal := Parse(argv, 1, parameters.integers, parameters.strings);
      error := false;
      var i := 1;
      while i < |argv|
        invariant 1 <= i && parameters.helpTexts == old(parameters.helpTexts)
        invariant var o := Parse(argv, i, parameters.integers, parameters.strings);
                  goal == o.(error := error || o.error)
        decreases |argv| - i
      {
        ghost var ints0, strs0 := parameters.integers, parameters.strings;
        var rejected, next := ReadArgument(argv, i);
        ParseStep(argv, i, ints0, strs0);
        error := error || rejected;
        i := next;
      }
    }
  }
}
