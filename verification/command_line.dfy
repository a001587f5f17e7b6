/**
 * The program's command-line parser: a single pass over the argument tokens
 * that groups each option token (one starting with '-') with the non-option
 * tokens that follow it. Groups with values go into an option dictionary (a
 * later group of the same name replaces an earlier one); groups without
 * values go into a flag set.
 */
module CommandLine {
  import opened Wrappers
  import opened Sequences

  /** `arg.StartsWith("-")`: the token opens a new option. */
  predicate IsOption(token: string): (r: bool)
    ensures r <==> "-" <= token
  {
    |token| > 0 && token[0] == '-'
  }

  /** One occurrence of an option on the command line together with the values that follow it. */
  datatype Segment = Segment(name: string, values: seq<string>)

  /**
   * The reference reading of a token sequence: the option occurrences, in order,
   * each with the run of non-option tokens after it. Tokens before the first
   * option belong to no occurrence.
   */
  function Segments(args: seq<string>): seq<Segment>
    decreases |args|
  {
    if args == [] then [] else Extend(Segments(args[..|args| - 1]), args[|args| - 1])
  }

  /** How one more token extends the reading: a new occurrence, nothing, or one more value for the last occurrence. */
  function Extend(segs: seq<Segment>, token: string): seq<Segment>
  {
    if IsOption(token) then segs + [Segment(token, [])]
    else if segs == [] then []
    else segs[..|segs| - 1] + [Segment(segs[|segs| - 1].name, segs[|segs| - 1].values + [token])]
  }

  /** The tokens a list of occurrences spells out, in order. */
  function Tokens(segs: seq<Segment>): seq<string>
    decreases |segs|
  {
    if segs == [] then []
    else Tokens(segs[..|segs| - 1]) + [segs[|segs| - 1].name] + segs[|segs| - 1].values
  }

  /** The number of tokens before the first option token. */
  function Lead(args: seq<string>): (n: nat)
    ensures n <= |args|
    ensures forall k :: 0 <= k < n ==> !IsOption(args[k])
    ensures n < |args| ==> IsOption(args[n])
  {
    if args == [] || IsOption(args[0]) then 0 else 1 + Lead(args[1..])
  }

  /** The values of the last occurrence of `option` that carried values, if any. */
  function LastValues(segs: seq<Segment>, option: string): (r: Option<seq<string>>)
    ensures r.Some? ==> r.value != []
    decreases |segs|
  {
    if segs == [] then None
    else if segs[|segs| - 1].name == option && segs[|segs| - 1].values != [] then Some(segs[|segs| - 1].values)
    else LastValues(segs[..|segs| - 1], option)
  }

  /** The option names that occur. */
  function Names(segs: seq<Segment>): set<string>
  {
    set k | 0 <= k < |segs| :: segs[k].name
  }

  /** The option dictionary a list of occurrences produces: each valued name maps to its last values. */
  function OptionsOf(segs: seq<Segment>): map<string, seq<string>>
  {
    map o | o in Names(segs) && LastValues(segs, o).Some? :: LastValues(segs, o).value
  }

  /** The flag set a list of occurrences produces: every name that occurs at least once without values. */
  function FlagsOf(segs: seq<Segment>): set<string>
  {
    set k | 0 <= k < |segs| && segs[k].values == [] :: segs[k].name
  }

  // ----- The reading into occurrences -----

  lemma SegmentsSnoc(p: seq<string>, t: string)
    ensures Segments(p + [t]) == Extend(Segments(p), t)
  {
    assert (p + [t])[..|p|] == p;
  }

  lemma LeadSnoc(args: seq<string>, token: string)
    ensures Lead(args + [token]) == if Lead(args) < |args| || IsOption(token) then Lead(args) else |args| + 1
  {
    var a := args + [token];
    var m, n := Lead(args), Lead(a);
    assert forall k :: 0 <= k < |args| ==> a[k] == args[k];
    assert forall k :: 0 <= k < m ==> !IsOption(a[k]);
    if m < |args| || IsOption(token) {
      assert IsOption(a[m]);
    } else {
      assert forall k :: 0 <= k < |a| ==> !IsOption(a[k]);
    }
  }

  lemma TokensSnoc(segs: seq<Segment>, s: Segment)
    ensures Tokens(segs + [s]) == Tokens(segs) + [s.name] + s.values
  {
    assert (segs + [s])[..|segs|] == segs;
  }

  lemma TokensEmpty(segs: seq<Segment>)
    ensures Tokens(segs) == [] <==> segs == []
  {
  }

  /** One more token adds exactly itself to the tokens of the reading, once an option has been seen. */
  lemma TokensExtend(segs: seq<Segment>, t: string)
    ensures Tokens(Extend(segs, t)) == if IsOption(t) || segs != [] then Tokens(segs) + [t] else []
  {
    if IsOption(t) {
      TokensSnoc(segs, Segment(t, []));
    } else if segs != [] {
      var init, last := segs[..|segs| - 1], segs[|segs| - 1];
      assert segs == init + [last];
      TokensSnoc(init, last);
      TokensSnoc(init, Segment(last.name, last.values + [t]));
    }
  }

  /**
   * The occurrences partition the tokens from the first option on: reading
   * them back in order gives exactly those tokens.
   */
  lemma {:induction false} SegmentsPartition(args: seq<string>)
    ensures Tokens(Segments(args)) == args[Lead(args)..]
    decreases |args|
  {
    if args != [] {
      var p, t := args[..|args| - 1], args[|args| - 1];
      assert args == p + [t];
      SegmentsPartition(p);
      PartitionStep(p, t);
    }
  }

  lemma PartitionStep(p: seq<string>, t: string)
    requires Tokens(Segments(p)) == p[Lead(p)..]
    ensures Tokens(Segments(p + [t])) == (p + [t])[Lead(p + [t])..]
  {
    LeadSnoc(p, t);
    SegmentsSnoc(p, t);
    TokensExtend(Segments(p), t);
    if IsOption(t) || Segments(p) != [] {
      SliceSnoc(p, t, Lead(p));
    } else {
      assert Lead(p) == |p|;
    }
  }


  /** Every occurrence is named by an option token and holds no option token among its values. */
  lemma {:induction false} SegmentsWellFormed(args: seq<string>)
    ensures forall k :: 0 <= k < |Segments(args)| ==> IsOption(Segments(args)[k].name)
    ensures forall k, j :: 0 <= k < |Segments(args)| && 0 <= j < |Segments(args)[k].values| ==>
              !IsOption(Segments(args)[k].values[j])
    decreases |args|
  {
    if args != [] {
      var p, t := args[..|args| - 1], args[|args| - 1];
      assert args == p + [t];
      SegmentsWellFormed(p);
      SegmentsSnoc(p, t);
    }
  }

  /** Every occurrence's name is one of the tokens read back from the occurrences. */
  lemma {:induction false} NameInTokens(segs: seq<Segment>, k: nat)
    requires k < |segs|
    ensures segs[k].name in Tokens(segs)
    decreases |segs|
  {
    var init, last := segs[..|segs| - 1], segs[|segs| - 1];
    assert segs == init + [last];
    TokensSnoc(init, last);
    if k < |init| {
      NameInTokens(init, k);
    }
  }

  /** A flag is a token of the command line. */
  lemma FlagIsToken(args: seq<string>, name: string)
    requires name in FlagsOf(Segments(args))
    ensures name in args
  {
    var segs := Segments(args);
    var k :| 0 <= k < |segs| && segs[k].values == [] && segs[k].name == name;
    NameInTokens(segs, k);
    SegmentsPartition(args);
  }

  /** A token sequence that starts with an option yields at least one occurrence. */
  lemma SegmentsNonEmpty(args: seq<string>)
    requires args != [] && IsOption(args[0])
    ensures Segments(args) != []
  {
    SegmentsPartition(args);
    TokensEmpty(Segments(args));
  }

  /** Extending a reading only touches its last occurrence. */
  lemma ExtendAppend(x: seq<Segment>, y: seq<Segment>, t: string)
    requires y != []
    ensures Extend(x + y, t) == x + Extend(y, t)
  {
    var xy := x + y;
    if !IsOption(t) {
      assert xy[..|xy| - 1] == x + y[..|y| - 1];
      assert xy[|xy| - 1] == y[|y| - 1];
    }
  }

  /** Reading splits at any option token: what comes before cannot reach past it. */
  lemma {:induction false} SegmentsAppend(a: seq<string>, b: seq<string>)
    requires b == [] || IsOption(b[0])
    ensures Segments(a + b) == Segments(a) + Segments(b)
    decreases |b|
  {
    if b == [] {
      assert a + b == a;
    } else {
      var b', t := b[..|b| - 1], b[|b| - 1];
      assert a + b == (a + b') + [t];
      assert b == b' + [t];
      SegmentsSnoc(a + b', t);
      SegmentsSnoc(b', t);
      if b' == [] {
        assert a + b' == a;
      } else {
        SegmentsAppend(a, b');
        SegmentsNonEmpty(b');
        ExtendAppend(Segments(a), Segments(b'), t);
      }
    }
  }

  /** An option token followed by a run of non-option tokens is one occurrence holding exactly that run, in order. */
  lemma {:induction false} OptionRun(option: string, values: seq<string>)
    requires IsOption(option)
    requires forall k :: 0 <= k < |values| ==> !IsOption(values[k])
    ensures Segments([option] + values) == [Segment(option, values)]
    decreases |values|
  {
    if values == [] {
      SegmentsSnoc([], option);
      assert [option] + values == [] + [option];
    } else {
      var v', t := values[..|values| - 1], values[|values| - 1];
      assert values == v' + [t];
      assert !IsOption(t);
      assert forall k :: 0 <= k < |v'| ==> !IsOption(v'[k]) by {
        forall k | 0 <= k < |v'| ensures !IsOption(v'[k]) {
          assert v'[k] == values[k];
        }
      }
      OptionRun(option, v');
      OptionRunStep(option, v', t);
    }
  }

  lemma OptionRunStep(option: string, values: seq<string>, t: string)
    requires Segments([option] + values) == [Segment(option, values)]
    requires !IsOption(t)
    ensures Segments([option] + (values + [t])) == [Segment(option, values + [t])]
  {
    assert [option] + (values + [t]) == ([option] + values) + [t];
    SegmentsSnoc([option] + values, t);
  }

  /**
   * Tokens before the first option are dropped: prefixing a run of non-option
   * tokens changes nothing.
   */
  lemma {:induction false} LeadingValuesIgnored(prefix: seq<string>, rest: seq<string>)
    requires forall k :: 0 <= k < |prefix| ==> !IsOption(prefix[k])
    ensures Segments(prefix + rest) == Segments(rest)
    decreases |rest|
  {
    if rest == [] {
      assert Segments(prefix) == [] by {
        SegmentsPartition(prefix);
        TokensEmpty(Segments(prefix));
      }
      assert prefix + rest == prefix;
    } else {
      var r', t := rest[..|rest| - 1], rest[|rest| - 1];
      assert Segments(prefix + r') == Segments(r') by {
        LeadingValuesIgnored(prefix, r');
      }
      assert Segments(prefix + rest) == Extend(Segments(prefix + r'), t) by {
        assert prefix + rest == (prefix + r') + [t];
        SegmentsSnoc(prefix + r', t);
      }
      assert Segments(rest) == Extend(Segments(r'), t) by {
        assert rest == r' + [t];
        SegmentsSnoc(r', t);
      }
    }
  }

  /**
   * One occurrence in the middle of a command line: an option token, its run of
   * values, and then either the end or another option.
   */
  lemma Occurrence(before: seq<string>, option: string, values: seq<string>, after: seq<string>)
    requires IsOption(option)
    requires forall k :: 0 <= k < |values| ==> !IsOption(values[k])
    requires after == [] || IsOption(after[0])
    ensures Segments(before + [option] + values + after) ==
            Segments(before) + [Segment(option, values)] + Segments(after)
  {
    var run := [option] + values;
    var tail := run + after;
    OptionRun(option, values);
    SegmentsAppend(run, after);
    assert tail[0] == option;
    SegmentsAppend(before, tail);
    ConcatAssoc(before, [option], values);
    ConcatAssoc(before, run, after);
    ConcatAssoc(Segments(before), [Segment(option, values)], Segments(after));
  }


  // ----- Options and flags -----

  /** The last valued occurrence wins: `LastValues` finds it, and finds nothing exactly when no occurrence carried values. */
  lemma {:induction false} LastValuesIsLastOccurrence(segs: seq<Segment>, option: string)
    ensures LastValues(segs, option).None? <==>
              forall k :: 0 <= k < |segs| && segs[k].name == option ==> segs[k].values == []
    ensures LastValues(segs, option).Some? ==>
              exists k :: 0 <= k < |segs| && segs[k] == Segment(option, LastValues(segs, option).value) &&
                forall j :: k < j < |segs| && segs[j].name == option ==> segs[j].values == []
    decreases |segs|
  {
    if segs != [] {
      var p := segs[..|segs| - 1];
      LastValuesIsLastOccurrence(p, option);
      assert forall k :: 0 <= k < |p| ==> p[k] == segs[k];
      var last := segs[|segs| - 1];
      if last.name == option && last.values != [] {
        assert segs[|segs| - 1] == Segment(option, LastValues(segs, option).value);
      } else if LastValues(p, option).Some? {
        var k :| 0 <= k < |p| && p[k] == Segment(option, LastValues(p, option).value) &&
                 forall j :: k < j < |p| && p[j].name == option ==> p[j].values == [];
        assert segs[k] == Segment(option, LastValues(segs, option).value);
      }
    }
  }

  /** Where the last valued occurrence of an option lies after a split point, the part before does not matter. */
  lemma {:induction false} LastValuesAppend(a: seq<Segment>, b: seq<Segment>, option: string)
    ensures LastValues(a + b, option) == if LastValues(b, option).Some? then LastValues(b, option) else LastValues(a, option)
    decreases |b|
  {
    if b != [] {
      var b' := b[..|b| - 1];
      assert (a + b)[..|a + b| - 1] == a + b';
      assert (a + b)[|a + b| - 1] == b[|b| - 1];
      LastValuesAppend(a, b', option);
    } else {
      assert a + b == a;
    }
  }

  lemma OptionsOfSnoc(segs: seq<Segment>, s: Segment)
    ensures OptionsOf(segs + [s]) == if s.values == [] then OptionsOf(segs) else OptionsOf(segs)[s.name := s.values]
  {
    var segs' := segs + [s];
    assert segs'[..|segs|] == segs;
    assert Names(segs') == Names(segs) + {s.name} by {
      assert forall k :: 0 <= k < |segs| ==> segs'[k] == segs[k];
      assert segs'[|segs|] == s;
    }
    forall o | o in Names(segs) && LastValues(segs, o).Some?
      ensures o in Names(segs')
    {
    }
    if s.values == [] {
      forall o | o == s.name && o !in Names(segs)
        ensures LastValues(segs', o).None?
      {
        assert LastValues(segs', o) == LastValues(segs, o);
        LastValuesIsLastOccurrence(segs, o);
      }
    }
  }

  lemma FlagsOfSnoc(segs: seq<Segment>, s: Segment)
    ensures FlagsOf(segs + [s]) == if s.values == [] then FlagsOf(segs) + {s.name} else FlagsOf(segs)
  {
    var segs' := segs + [s];
    assert forall k :: 0 <= k < |segs| ==> segs'[k] == segs[k];
    assert segs'[|segs|] == s;
    if s.values == [] {
      assert s.name in FlagsOf(segs');
    }
  }

  /** Every stored value list is non-empty, and it is the last valued occurrence's list. */
  lemma OptionsOfValues(segs: seq<Segment>, option: string)
    ensures option in OptionsOf(segs) <==> LastValues(segs, option).Some?
    ensures option in OptionsOf(segs) ==> OptionsOf(segs)[option] == LastValues(segs, option).value != []
  {
    if LastValues(segs, option).Some? {
      LastValuesIsLastOccurrence(segs, option);
    }
  }

  /** A flag entry is never removed: further occurrences only add flags. */
  lemma FlagsOfGrow(segs: seq<Segment>, more: seq<Segment>)
    ensures FlagsOf(segs) <= FlagsOf(segs + more)
  {
    forall f | f in FlagsOf(segs)
      ensures f in FlagsOf(segs + more)
    {
      var k :| 0 <= k < |segs| && segs[k].values == [] && segs[k].name == f;
      assert (segs + more)[k] == segs[k];
    }
  }

  /**
   * Last occurrence wins: when an option's final valued occurrence carries
   * `values`, the dictionary holds exactly those values for it, whatever the
   * earlier occurrences said.
   */
  lemma LastOccurrenceWins(before: seq<string>, option: string, values: seq<string>, after: seq<string>)
    requires IsOption(option)
    requires values != [] && forall k :: 0 <= k < |values| ==> !IsOption(values[k])
    requires after == [] || IsOption(after[0])
    requires LastValues(Segments(after), option).None?
    ensures var options := OptionsOf(Segments(before + [option] + values + after));
            option in options && options[option] == values
  {
    Occurrence(before, option, values, after);
    var segs := Segments(before + [option] + values + after);
    LastValuesAppend(Segments(before) + [Segment(option, values)], Segments(after), option);
    LastValuesAppend(Segments(before), [Segment(option, values)], option);
    assert LastValues([Segment(option, values)], option) == Some(values);
    OptionsOfValues(segs, option);
  }

  /** An option token followed directly by another option token, or by nothing, becomes a flag. */
  lemma BareOptionIsFlag(before: seq<string>, option: string, after: seq<string>)
    requires IsOption(option)
    requires after == [] || IsOption(after[0])
    ensures option in FlagsOf(Segments(before + [option] + after))
  {
    assert Segments(before + [option] + after) == Segments(before) + [Segment(option, [])] + Segments(after) by {
      Occurrence(before, option, [], after);
      assert before + [option] + [] + after == before + [option] + after;
    }
    FlagsOfMiddle(Segments(before), Segment(option, []), Segments(after));
  }

  lemma FlagsOfMiddle(a: seq<Segment>, s: Segment, b: seq<Segment>)
    requires s.values == []
    ensures s.name in FlagsOf(a + [s] + b)
  {
    assert (a + [s] + b)[|a|] == s;
  }

  /**
   * The same name can be both a flag and a valued option: "-a -a x" records a
   * flag for the first occurrence and the values of the second.
   */
  lemma FlagAndOptionTogether(option: string, value: string)
    requires IsOption(option) && !IsOption(value)
    ensures var segs := Segments([option, option, value]);
            option in FlagsOf(segs) && option in OptionsOf(segs) && OptionsOf(segs)[option] == [value]
  {
    var segs := [Segment(option, []), Segment(option, [value])];
    assert Segments([option, option, value]) == segs by {
      Occurrence([option], option, [value], []);
      assert [option] + [option] + [value] + [] == [option, option, value];
      OptionRun(option, []);
      assert [option] + [] == [option];
    }
    FlagsOfMiddle([], segs[0], [segs[1]]);
    assert [] + [segs[0]] + [segs[1]] == segs;
    assert LastValues(segs, option) == Some([value]);
    OptionsOfValues(segs, option);
  }

  /** The parser: an option dictionary and a flag set, filled in by a single pass over the arguments. */
  class CommandLineParser {
    /** The argument tokens the parser was built from. */
    ghost const args: seq<string>
    var options: map<string, seq<string>>
    var flags: set<string>

    /** The dictionary and the flag set are those the occurrences in `args` determine. */
    ghost predicate Valid()
      reads this
    {
      options == OptionsOf(Segments(args)) && flags == FlagsOf(Segments(args))
    }

    constructor (args: seq<string>)
      ensures this.args == args && Valid()
    {
      this.args := args;
      options := map[];
      flags := {};
      new;
      var currentOption: Option<string> := None;
      var currentValues: seq<string> := [];
      ghost var done: seq<Segment> := [];
      for i := 0 to |args|
        invariant currentOption.None? ==> Segments(args[..i]) == [] && done == []
        invariant currentOption.Some? ==> Segments(args[..i]) == done + [Segment(currentOption.value, currentValues)]
        invariant options == OptionsOf(done) && flags == FlagsOf(done)
      {
        var arg := args[i];
        assert args[..i + 1][..i] == args[..i] && args[..i + 1][i] == arg;
        if IsOption(arg) {
          if currentOption.Some? {
            var current := Segment(currentOption.value, currentValues);
            if |currentValues| == 0 {
              flags := flags + {currentOption.value};
            } else {
              options := options[currentOption.value := currentValues];
            }
            OptionsOfSnoc(done, current);
            FlagsOfSnoc(done, current);
            done := done + [current];
          }
          currentOption := Some(arg);
          currentValues := [];
        } else if currentOption.Some? {
          var segs := Segments(args[..i]);
          assert segs[..|segs| - 1] == done;
          currentValues := currentValues + [arg];
        }
      }
      if currentOption.Some? {
        var current := Segment(currentOption.value, currentValues);
        if |currentValues| == 0 {
          flags := flags + {currentOption.value};
        } else {
          options := options[currentOption.value := currentValues];
        }
        OptionsOfSnoc(done, current);
        FlagsOfSnoc(done, current);
        done := done + [current];
      }
      assert args[..|args|] == args;
    }

    /** `HasFlag`: the name occurred at least once with no values after it. */
    function HasFlag(flag: string): (r: bool)
      reads this
      requires Valid()
      ensures r <==> Segment(flag, []) in Segments(args)
    {
      ghost var segs := Segments(args);
      assert Segment(flag, []) in segs ==> exists k :: 0 <= k < |segs| && segs[k] == Segment(flag, []);
      flag in flags
    }

    /** `HasOption`: the name occurred at least once with values after it. */
    function HasOption(option: string): (r: bool)
      reads this
      requires Valid()
      ensures r <==> exists k :: 0 <= k < |Segments(args)| && Segments(args)[k].name == option && Segments(args)[k].values != []
    {
      OptionsOfValues(Segments(args), option);
      LastValuesIsLastOccurrence(Segments(args), option);
      option in options
    }

    /** `GetOptionValues`: the values of the option's last valued occurrence, or null when there is none. */
    function GetOptionValues(option: string): (r: Option<seq<string>>)
      reads this
      requires Valid()
      ensures r.Some? <==> HasOption(option)
      ensures r == LastValues(Segments(args), option)
      ensures r.Some? ==> r.value != []
    {
      OptionsOfValues(Segments(args), option);
      if option in options then Some(options[option]) else None
    }

    /** `GetOptionValue`: the first of those values, or null. */
    function GetOptionValue(option: string): (r: Option<string>)
      reads this
      requires Valid()
      ensures r.Some? <==> HasOption(option)
      ensures r.Some? ==> r.value == LastValues(Segments(args), option).value[0]
    {
      OptionsOfValues(Segments(args), option);
      if option in options && |options[option]| > 0 then Some(options[option][0]) else None
    }
  }
}
