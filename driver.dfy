/**
 * The driver `main`: the option loop sets two flags, then every operand is
 * classified and reported in order. The command line arrives already split
 * into the option characters getopt returns and the operands after them.
 */
module Driver {

  import opened Wrappers
  import opened Filesystem
  import opened Classifier

  datatype Flags = Flags(symlinks: bool, ignoremagic: bool)

  /** One line of standard output, `"<arg>: <description>\n"`. */
  datatype Line = Line(arg: Path, description: string)

  /** What usage() writes to standard error before exit(1). */
  const Usage := "usage:\tfile [-hi] ...\n"

  const UsageStatus: int := 1

  /** One pass of the getopt loop; None is the call to usage(). */
  function ApplyOption(f: Flags, ch: char): Option<Flags>
  {
    match ch
    case 'h' => Some(f.(symlinks := true))
    case 'i' => Some(f.(ignoremagic := true))
    case 'd' => Some(f)
    case 'm' => Some(f)
    case 'M' => Some(f)
    case _ => None
  }

  /** The getopt loop over `opts`, from flags both clear. */
  function Getopt(opts: seq<char>): Option<Flags>
  {
    if opts == [] then Some(Flags(false, false))
    else match Getopt(opts[..|opts| - 1])
      case None => None
      case Some(f) => ApplyOption(f, opts[|opts| - 1])
  }

  /** The option characters main accepts. */
  predicate Accepted(ch: char) { ch in "dhimM" }

  /** The label main prints for one operand under the parsed flags. */
  function Classify(fs: Oracle, arg: Path, flags: Flags): string
  {
    File(fs, arg, flags.symlinks, flags.ignoremagic).description
  }

  /**
   * The option loop fails exactly when some option is not one of d, h, i,
   * m, M; otherwise `symlinks` is set exactly when -h appears and
   * `ignoremagic` exactly when -i does.
   */
  lemma {:induction false} GetoptCharacterized(opts: seq<char>)
    ensures Getopt(opts).None? <==> exists k :: 0 <= k < |opts| && !Accepted(opts[k])
    ensures Getopt(opts).Some? ==> Getopt(opts).value == Flags('h' in opts, 'i' in opts)
  {
    if opts != [] {
      var init := opts[..|opts| - 1];
      var last := opts[|opts| - 1];
      GetoptCharacterized(init);
      assert opts == init + [last];
      if Getopt(init).None? {
        var k :| 0 <= k < |init| && !Accepted(init[k]);
        assert opts[k] == init[k];
      } else if !Accepted(last) {
        assert !Accepted(opts[|opts| - 1]);
      } else {
        assert 'h' in opts <==> 'h' in init || last == 'h';
        assert 'i' in opts <==> 'i' in init || last == 'i';
        forall k | 0 <= k < |opts| ensures Accepted(opts[k]) {
          if k < |init| { assert opts[k] == init[k]; }
        }
      }
    }
  }

  /**
   * Only which options appear matters, not their order or how often: in
   * particular repeating a flag is the same as giving it once.
   */
  lemma SameOptionsSameFlags(opts: seq<char>, others: seq<char>)
    requires forall ch :: ch in opts <==> ch in others
    ensures Getopt(opts) == Getopt(others)
  {
    GetoptCharacterized(opts);
    GetoptCharacterized(others);
    if Getopt(opts).None? {
      var k :| 0 <= k < |opts| && !Accepted(opts[k]);
      assert opts[k] in others;
    }
    if Getopt(others).None? {
      var k :| 0 <= k < |others| && !Accepted(others[k]);
      assert others[k] in opts;
    }
  }

  /** Giving an option twice in a row is the same as giving it once. */
  lemma RepeatedOption(before: seq<char>, ch: char, after: seq<char>)
    ensures Getopt(before + [ch, ch] + after) == Getopt(before + [ch] + after)
  {
    var twice := before + [ch, ch] + after;
    var once := before + [ch] + after;
    forall c ensures c in twice <==> c in once {
      assert c in twice <==> c in before || c == ch || c in after;
      assert c in once <==> c in before || c == ch || c in after;
    }
    SameOptionsSameFlags(twice, once);
  }

  /** -d, -m and -M change nothing, wherever they appear. */
  lemma InertOptions(before: seq<char>, ch: char, after: seq<char>)
    requires ch == 'd' || ch == 'm' || ch == 'M'
    ensures Getopt(before + [ch] + after) == Getopt(before + after)
  {
    var with := before + [ch] + after;
    var without := before + after;
    GetoptCharacterized(with);
    GetoptCharacterized(without);
    assert 'h' in with <==> 'h' in without by {
      assert 'h' in with <==> 'h' in before || 'h' in after;
    }
    assert 'i' in with <==> 'i' in without by {
      assert 'i' in with <==> 'i' in before || 'i' in after;
    }
    if Getopt(with).None? {
      var k :| 0 <= k < |with| && !Accepted(with[k]);
      if k < |before| {
        assert without[k] == with[k];
      } else {
        assert k > |before|;
        assert without[k - 1] == with[k];
      }
    }
    if Getopt(without).None? {
      var k :| 0 <= k < |without| && !Accepted(without[k]);
      if k < |before| {
        assert with[k] == without[k];
      } else {
        assert with[k + 1] == without[k];
      }
    }
  }

  /**
   * main(argc, argv): on an unknown option, or with no operand left, the
   * usage message goes to standard error and the status is 1 with nothing
   * printed; otherwise one line per operand, in order, and status 0, however
   * many of them cannot be opened.
   */
  method Run(fs: Oracle, opts: seq<char>, operands: seq<Path>) returns (status: int, out: seq<Line>, err: string)
    ensures Getopt(opts).None? || operands == [] ==> status == UsageStatus && out == [] && err == Usage
    ensures Getopt(opts).Some? && operands != [] ==>
              status == 0 && err == [] && |out| == |operands|
              && forall i :: 0 <= i < |out| ==>
                   out[i] == Line(operands[i], Classify(fs, operands[i], Getopt(opts).value))
  {
    var symlinks, ignoremagic := false, false;
    var k := 0;
    while k < |opts|
      invariant 0 <= k <= |opts|
      invariant Getopt(opts[..k]) == Some(Flags(symlinks, ignoremagic))
    {
      assert opts[..k + 1][..k] == opts[..k];
      var ch := opts[k];
      if ch == 'h' {
        symlinks := true;
      } else if ch == 'i' {
        ignoremagic := true;
      } else if ch == 'd' || ch == 'm' || ch == 'M' {
        // ignored
      } else {
        GetoptCharacterized(opts);
        return UsageStatus, [], Usage;
      }
      k := k + 1;
    }
    assert opts[..k] == opts;
    if |operands| == 0 {
      return UsageStatus, [], Usage;
    }
    out := [];
    for i := 0 to |operands|
      invariant |out| == i
      invariant forall j :: 0 <= j < i ==>
                  out[j] == Line(operands[j], File(fs, operands[j], symlinks, ignoremagic).description)
    {
      var description := File(fs, operands[i], symlinks, ignoremagic).description;
      out := out + [Line(operands[i], description)];
    }
    return 0, out, [];
  }
}
