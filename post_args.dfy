/** `parsePostArgs` (src/commands/post.ts): the options of the `post` command.

    `DEFAULT_DB_PATH` (src/config.ts) is the parameter `defaultDbPath`, and
    `path.resolve` the parameter `resolve`. */
module PostArgsParser {
  import opened Wrappers
  import opened Text
  import opened Types
  import opened Constants

  const EXCLUDE_VIDEOS: string := "--exclude-videos"
  const QUIET_SUCCESS: string := "--quiet-success"
  const RETRY_COUNT: string := "--retry-count"
  const RETRY_COUNT_EQ: string := "--retry-count="

  datatype ArgError =
    | RetryCountMissing               // '--retry-count requires a number.'
    | InvalidRetryCount(value: string) // 'Invalid --retry-count value: <value>'
    | UnknownOption(arg: string)       // 'Unknown option for post: <arg>'
    | TooManyArguments                 // 'Too many arguments for post command.'

  /** The mutable locals of the loop. */
  datatype ArgState = ArgState(dbPathArg: Option<string>, excludeVideos: bool, quietSuccess: bool, retryCount: nat)

  const INITIAL: ArgState := ArgState(None, false, false, POST_MAX_RETRY_COUNT)

  /** A retry count as `Number.parseInt(value, 10)` reads it, kept only when it is an
      integer (not NaN) and not negative. */
  function RetryValue(value: string): Option<nat> {
    match ParseInt(value)
    case None => None
    case Some(n) => if n < 0 then None else Some(n)
  }

  /** `!value` for `args[index + 1]`: absent or empty. */
  predicate MissingValue(args: seq<string>, index: nat) {
    index + 1 >= |args| || args[index + 1] == []
  }

  /** The loop from position `index` on, with the locals in state `st`. */
  function ParseArgsFrom(args: seq<string>, index: nat, st: ArgState): Result<ArgState, ArgError>
    requires index <= |args|
    decreases |args| - index
  {
    if index == |args| then Ok(st)
    else
      var arg := args[index];
      if arg == EXCLUDE_VIDEOS then ParseArgsFrom(args, index + 1, st.(excludeVideos := true))
      else if arg == QUIET_SUCCESS then ParseArgsFrom(args, index + 1, st.(quietSuccess := true))
      else if arg == RETRY_COUNT then
        if MissingValue(args, index) then Err(RetryCountMissing)
        else match RetryValue(args[index + 1])
          case None => Err(InvalidRetryCount(args[index + 1]))
          case Some(n) => ParseArgsFrom(args, index + 2, st.(retryCount := n))
      else if StartsWith(arg, RETRY_COUNT_EQ) then
        var value := arg[|RETRY_COUNT_EQ|..];
        match RetryValue(value)
        case None => Err(InvalidRetryCount(value))
        case Some(n) => ParseArgsFrom(args, index + 1, st.(retryCount := n))
      else if StartsWith(arg, "-") then Err(UnknownOption(arg))
      else if st.dbPathArg.Some? then Err(TooManyArguments)
      else ParseArgsFrom(args, index + 1, st.(dbPathArg := Some(arg)))
  }

  function Finish(st: ArgState, defaultDbPath: string, resolve: string -> string): PostArgs {
    PostArgs(resolve(st.dbPathArg.GetOr(defaultDbPath)), st.excludeVideos, st.quietSuccess, st.retryCount)
  }

  /** What `parsePostArgs(args)` returns or throws. */
  function ParsedPostArgs(args: seq<string>, defaultDbPath: string, resolve: string -> string): Result<PostArgs, ArgError> {
    match ParseArgsFrom(args, 0, INITIAL)
    case Err(e) => Err(e)
    case Ok(st) => Ok(Finish(st, defaultDbPath, resolve))
  }

  /** One turn of the loop of `parsePostArgs`: the argument at `index` read in state `st`,
      giving either the error thrown or the next position and state. */
  method TakeArg(args: seq<string>, index: nat, st: ArgState) returns (r: Result<(nat, ArgState), ArgError>)
    requires index < |args|
    ensures r.Err? ==> ParseArgsFrom(args, index, st) == Err(r.error)
    ensures r.Ok? ==> index < r.value.0 <= |args|
    ensures r.Ok? ==> ParseArgsFrom(args, index, st) == ParseArgsFrom(args, r.value.0, r.value.1)
  {
    var arg := args[index];
    if arg == EXCLUDE_VIDEOS {
      return Ok((index + 1, st.(excludeVideos := true)));
    }
    if arg == QUIET_SUCCESS {
      return Ok((index + 1, st.(quietSuccess := true)));
    }
    if arg == RETRY_COUNT {
      if index + 1 >= |args| || args[index + 1] == [] {
        return Err(RetryCountMissing);
      }
      var value := args[index + 1];
      var parsed := RetryValue(value);
      if parsed.None? {
        return Err(InvalidRetryCount(value));
      }
      return Ok((index + 2, st.(retryCount := parsed.value)));
    }
    if StartsWith(arg, RETRY_COUNT_EQ) {
      var value := arg[|RETRY_COUNT_EQ|..];
      var parsed := RetryValue(value);
      if parsed.None? {
        return Err(InvalidRetryCount(value));
      }
      return Ok((index + 1, st.(retryCount := parsed.value)));
    }
    if StartsWith(arg, "-") {
      return Err(UnknownOption(arg));
    }
    if st.dbPathArg.Some? {
      return Err(TooManyArguments);
    }
    return Ok((index + 1, st.(dbPathArg := Some(arg))));
  }

  /** `parsePostArgs(args)`. */
  method ParsePostArgs(args: seq<string>, defaultDbPath: string, resolve: string -> string)
    returns (r: Result<PostArgs, ArgError>)
    ensures r == ParsedPostArgs(args, defaultDbPath, resolve)
  {
    var st := INITIAL;
    var index := 0;
    while index < |args|
      invariant index <= |args|
      invariant ParseArgsFrom(args, index, st) == ParseArgsFrom(args, 0, INITIAL)
      decreases |args| - index
    {
      var turn := TakeArg(args, index, st);
      if turn.Err? {
        return Err(turn.error);
      }
      index, st := turn.value.0, turn.value.1;
    }
    return Ok(Finish(st, defaultDbPath, resolve));
  }

  // ---------------------------------------------------------------- what the options mean

  /** Without arguments: the default catalog, no flag, five retries. */
  lemma NoArguments(defaultDbPath: string, resolve: string -> string)
    ensures ParsedPostArgs([], defaultDbPath, resolve) == Ok(PostArgs(resolve(defaultDbPath), false, false, 5))
  {
  }

  /** Parsing goes left to right: when a prefix parses, what follows continues from
      the state the prefix left. */
  lemma {:induction false} ParseAppend(args: seq<string>, extra: seq<string>, index: nat, st: ArgState)
    requires index <= |args| && ParseArgsFrom(args, index, st).Ok?
    ensures ParseArgsFrom(args + extra, index, st) == ParseArgsFrom(args + extra, |args|, ParseArgsFrom(args, index, st).value)
    decreases |args| - index
  {
    if index < |args| {
      var all := args + extra;
      assert all[index] == args[index];
      var arg := args[index];
      if arg == RETRY_COUNT {
        assert !MissingValue(args, index);
        assert all[index + 1] == args[index + 1];
        var n := RetryValue(args[index + 1]).value;
        ParseAppend(args, extra, index + 2, st.(retryCount := n));
      } else if arg == EXCLUDE_VIDEOS {
        ParseAppend(args, extra, index + 1, st.(excludeVideos := true));
      } else if arg == QUIET_SUCCESS {
        ParseAppend(args, extra, index + 1, st.(quietSuccess := true));
      } else if StartsWith(arg, RETRY_COUNT_EQ) {
        var n := RetryValue(arg[|RETRY_COUNT_EQ|..]).value;
        ParseAppend(args, extra, index + 1, st.(retryCount := n));
      } else {
        ParseAppend(args, extra, index + 1, st.(dbPathArg := Some(arg)));
      }
    }
  }

  /** A retry count written out by `toString` reads back as itself. */
  lemma RetryValueOfNumber(n: nat, tail: string)
    requires tail == [] || !IsDigit(tail[0])
    ensures RetryValue(NatToString(n) + tail) == Some(n)
  {
    ParseIntPrefix(n, tail);
  }

  /** When the option is given more than once the last one wins, in either spelling. */
  lemma RetryCountLastWins(args: seq<string>, n: nat, defaultDbPath: string, resolve: string -> string)
    requires ParsedPostArgs(args, defaultDbPath, resolve).Ok?
    ensures var before := ParsedPostArgs(args, defaultDbPath, resolve).value;
      ParsedPostArgs(args + [RETRY_COUNT_EQ + NatToString(n)], defaultDbPath, resolve) == Ok(before.(retryCount := n))
      && ParsedPostArgs(args + [RETRY_COUNT, NatToString(n)], defaultDbPath, resolve) == Ok(before.(retryCount := n))
  {
    LastJoinedRetryCount(args, n, defaultDbPath, resolve);
    LastSpacedRetryCount(args, n, defaultDbPath, resolve);
  }

  lemma RetryValueOfDigits(n: nat)
    ensures RetryValue(NatToString(n)) == Some(n)
  {
    RetryValueOfNumber(n, []);
    assert NatToString(n) + [] == NatToString(n);
  }

  lemma LastJoinedRetryCount(args: seq<string>, n: nat, defaultDbPath: string, resolve: string -> string)
    requires ParsedPostArgs(args, defaultDbPath, resolve).Ok?
    ensures var before := ParsedPostArgs(args, defaultDbPath, resolve).value;
      ParsedPostArgs(args + [RETRY_COUNT_EQ + NatToString(n)], defaultDbPath, resolve) == Ok(before.(retryCount := n))
  {
    var st := ParseArgsFrom(args, 0, INITIAL).value;
    var digits := NatToString(n);
    RetryValueOfDigits(n);
    var joined := args + [RETRY_COUNT_EQ + digits];
    ParseAppend(args, [RETRY_COUNT_EQ + digits], 0, INITIAL);
    JoinedRetryCount(joined, |args|, st, digits);
    assert ParseArgsFrom(joined, 0, INITIAL) == Ok(st.(retryCount := n));
  }

  lemma LastSpacedRetryCount(args: seq<string>, n: nat, defaultDbPath: string, resolve: string -> string)
    requires ParsedPostArgs(args, defaultDbPath, resolve).Ok?
    ensures var before := ParsedPostArgs(args, defaultDbPath, resolve).value;
      ParsedPostArgs(args + [RETRY_COUNT, NatToString(n)], defaultDbPath, resolve) == Ok(before.(retryCount := n))
  {
    var st := ParseArgsFrom(args, 0, INITIAL).value;
    var digits := NatToString(n);
    RetryValueOfDigits(n);
    var spaced := args + [RETRY_COUNT, digits];
    ParseAppend(args, [RETRY_COUNT, digits], 0, INITIAL);
    SpacedRetryCount(spaced, |args|, st);
    assert ParseArgsFrom(spaced, 0, INITIAL) == Ok(st.(retryCount := n));
  }

  /** A negative count is refused, and so is a value that does not start with a digit
      (after an optional sign), such as an option name. */
  lemma RetryValueRefused(n: nat, tail: string, word: string)
    requires n > 0 && (tail == [] || !IsDigit(tail[0]))
    requires word != [] && !IsDigit(word[0]) && !IsWhitespace(word[0])
    requires (word[0] == '-' || word[0] == '+') ==> |word| == 1 || !IsDigit(word[1])
    ensures RetryValue("-" + NatToString(n) + tail) == None
    ensures RetryValue(word) == None
  {
    ParseIntNegative(n, tail);
    ParseIntNoDigit(word);
  }

  /** `--retry-count` as the last argument, or followed by an empty value, is refused. */
  lemma RetryCountWithoutValue(args: seq<string>, rest: seq<string>, defaultDbPath: string, resolve: string -> string)
    requires ParsedPostArgs(args, defaultDbPath, resolve).Ok?
    ensures ParsedPostArgs(args + [RETRY_COUNT], defaultDbPath, resolve) == Err(RetryCountMissing)
    ensures ParsedPostArgs(args + [RETRY_COUNT, ""] + rest, defaultDbPath, resolve) == Err(RetryCountMissing)
  {
    ParseAppend(args, [RETRY_COUNT], 0, INITIAL);
    assert (args + [RETRY_COUNT])[|args|] == RETRY_COUNT;
    var all := args + [RETRY_COUNT, ""] + rest;
    assert all == args + ([RETRY_COUNT, ""] + rest);
    ParseAppend(args, [RETRY_COUNT, ""] + rest, 0, INITIAL);
    assert all[|args|] == RETRY_COUNT && all[|args| + 1] == "";
  }

  /** A value `parseInt` cannot read as a non-negative integer is refused, in either
      spelling: `--retry-count=<value>` ... */
  lemma RetryCountInvalid(args: seq<string>, value: string, rest: seq<string>, defaultDbPath: string, resolve: string -> string)
    requires ParsedPostArgs(args, defaultDbPath, resolve).Ok?
    requires RetryValue(value).None?
    ensures ParsedPostArgs(args + [RETRY_COUNT_EQ + value] + rest, defaultDbPath, resolve) == Err(InvalidRetryCount(value))
  {
    var all := args + [RETRY_COUNT_EQ + value] + rest;
    assert all == args + ([RETRY_COUNT_EQ + value] + rest);
    ParseAppend(args, [RETRY_COUNT_EQ + value] + rest, 0, INITIAL);
    JoinedRetryCount(all, |args|, ParseArgsFrom(args, 0, INITIAL).value, value);
  }

  /** How the loop reads an argument `--retry-count=<value>`. */
  lemma JoinedRetryCount(args: seq<string>, index: nat, st: ArgState, value: string)
    requires index < |args| && args[index] == RETRY_COUNT_EQ + value
    ensures ParseArgsFrom(args, index, st) == match RetryValue(value)
      case None => Err(InvalidRetryCount(value))
      case Some(n) => ParseArgsFrom(args, index + 1, st.(retryCount := n))
  {
    var eq := args[index];
    assert StartsWith(eq, RETRY_COUNT_EQ) && eq[|RETRY_COUNT_EQ|..] == value by {
      assert eq[..|RETRY_COUNT_EQ|] == RETRY_COUNT_EQ;
    }
    assert eq != EXCLUDE_VIDEOS && eq != QUIET_SUCCESS && eq != RETRY_COUNT by {
      assert |eq| > |RETRY_COUNT| && eq[2] == 'r';
    }
  }

  /** How the loop reads an argument `--retry-count` followed by a non-empty value. */
  lemma SpacedRetryCount(args: seq<string>, index: nat, st: ArgState)
    requires index + 1 < |args| && args[index] == RETRY_COUNT && args[index + 1] != []
    ensures ParseArgsFrom(args, index, st) == match RetryValue(args[index + 1])
      case None => Err(InvalidRetryCount(args[index + 1]))
      case Some(n) => ParseArgsFrom(args, index + 2, st.(retryCount := n))
  {
    assert !MissingValue(args, index);
  }

  /** ... and `--retry-count <value>` with a non-empty value. */
  lemma RetryCountInvalidSpaced(args: seq<string>, value: string, rest: seq<string>, defaultDbPath: string, resolve: string -> string)
    requires ParsedPostArgs(args, defaultDbPath, resolve).Ok?
    requires RetryValue(value).None? && value != []
    ensures ParsedPostArgs(args + [RETRY_COUNT, value] + rest, defaultDbPath, resolve) == Err(InvalidRetryCount(value))
  {
    var spaced := args + [RETRY_COUNT, value] + rest;
    assert spaced == args + ([RETRY_COUNT, value] + rest);
    ParseAppend(args, [RETRY_COUNT, value] + rest, 0, INITIAL);
    SpacedRetryCount(spaced, |args|, ParseArgsFrom(args, 0, INITIAL).value);
  }

  /** Any other argument starting with `-` is an unknown option. */
  lemma UnknownOptionRefused(args: seq<string>, arg: string, rest: seq<string>, defaultDbPath: string, resolve: string -> string)
    requires ParsedPostArgs(args, defaultDbPath, resolve).Ok?
    requires StartsWith(arg, "-") && arg != EXCLUDE_VIDEOS && arg != QUIET_SUCCESS && arg != RETRY_COUNT
    requires !StartsWith(arg, RETRY_COUNT_EQ)
    ensures ParsedPostArgs(args + [arg] + rest, defaultDbPath, resolve) == Err(UnknownOption(arg))
  {
    var all := args + [arg] + rest;
    assert all == args + ([arg] + rest);
    ParseAppend(args, [arg] + rest, 0, INITIAL);
    assert all[|args|] == arg;
  }

  /** A second positional argument is refused; a single one is the catalog path. */
  lemma PositionalArguments(first: string, second: string, rest: seq<string>, defaultDbPath: string, resolve: string -> string)
    requires first != [] && first[0] != '-' && second != [] && second[0] != '-'
    ensures ParsedPostArgs([first], defaultDbPath, resolve) == Ok(PostArgs(resolve(first), false, false, 5))
    ensures ParsedPostArgs([first, second] + rest, defaultDbPath, resolve) == Err(TooManyArguments)
  {
    assert first != EXCLUDE_VIDEOS && first != QUIET_SUCCESS && first != RETRY_COUNT by {
      assert EXCLUDE_VIDEOS[0] == '-' && QUIET_SUCCESS[0] == '-' && RETRY_COUNT[0] == '-';
    }
    assert !StartsWith(first, RETRY_COUNT_EQ) && !StartsWith(first, "-");
    assert second != EXCLUDE_VIDEOS && second != QUIET_SUCCESS && second != RETRY_COUNT by {
      assert EXCLUDE_VIDEOS[0] == '-' && QUIET_SUCCESS[0] == '-' && RETRY_COUNT[0] == '-';
    }
    assert !StartsWith(second, RETRY_COUNT_EQ) && !StartsWith(second, "-");
    var one := INITIAL.(dbPathArg := Some(first));
    assert ParseArgsFrom([first], 0, INITIAL) == ParseArgsFrom([first], 1, one);
    var all := [first, second] + rest;
    assert all[0] == first && all[1] == second;
    assert ParseArgsFrom(all, 0, INITIAL) == ParseArgsFrom(all, 1, one);
    assert ParseArgsFrom(all, 1, one) == Err(TooManyArguments);
  }

  /** A flag is on exactly when it appears among the arguments of a successful parse
      (an argument consumed as a retry value cannot be a flag, since it must parse as
      a number). */
  lemma {:induction false} FlagsFrom(args: seq<string>, index: nat, st: ArgState)
    requires index <= |args| && ParseArgsFrom(args, index, st).Ok?
    ensures var r := ParseArgsFrom(args, index, st).value;
      (r.excludeVideos <==> st.excludeVideos || EXCLUDE_VIDEOS in args[index..])
      && (r.quietSuccess <==> st.quietSuccess || QUIET_SUCCESS in args[index..])
    decreases |args| - index
  {
    if index < |args| {
      var next, st' := ParseStep(args, index, st);
      FlagsFrom(args, next, st');
      assert args[index..] == args[index..next] + args[next..];
      if next == index + 1 {
        assert args[index..next] == [args[index]];
      } else {
        assert args[index..next] == [args[index], args[index + 1]];
      }
    }
  }

  /** One turn of the loop: the position it moves to (past a retry value that is no
      flag, when it takes one) and the state it leaves. */
  lemma ParseStep(args: seq<string>, index: nat, st: ArgState) returns (next: nat, st': ArgState)
    requires index < |args| && ParseArgsFrom(args, index, st).Ok?
    ensures next == index + 1
      || (next == index + 2 && next <= |args| && args[index + 1] != EXCLUDE_VIDEOS && args[index + 1] != QUIET_SUCCESS)
    ensures ParseArgsFrom(args, index, st) == ParseArgsFrom(args, next, st')
    ensures st'.excludeVideos == (st.excludeVideos || args[index] == EXCLUDE_VIDEOS)
    ensures st'.quietSuccess == (st.quietSuccess || args[index] == QUIET_SUCCESS)
  {
    var arg := args[index];
    if arg == RETRY_COUNT {
      FlagIsNoNumber();
      next, st' := index + 2, st.(retryCount := RetryValue(args[index + 1]).value);
    } else if arg == EXCLUDE_VIDEOS {
      next, st' := index + 1, st.(excludeVideos := true);
    } else if arg == QUIET_SUCCESS {
      next, st' := index + 1, st.(quietSuccess := true);
    } else if StartsWith(arg, RETRY_COUNT_EQ) {
      next, st' := index + 1, st.(retryCount := RetryValue(arg[|RETRY_COUNT_EQ|..]).value);
    } else {
      next, st' := index + 1, st.(dbPathArg := Some(arg));
    }
  }

  lemma FlagIsNoNumber()
    ensures RetryValue(EXCLUDE_VIDEOS).None? && RetryValue(QUIET_SUCCESS).None?
  {
    ParseIntNoDigit(EXCLUDE_VIDEOS);
    ParseIntNoDigit(QUIET_SUCCESS);
  }

  lemma FlagsExact(args: seq<string>, defaultDbPath: string, resolve: string -> string)
    requires ParsedPostArgs(args, defaultDbPath, resolve).Ok?
    ensures var p := ParsedPostArgs(args, defaultDbPath, resolve).value;
      (p.excludeVideos <==> EXCLUDE_VIDEOS in args) && (p.quietSuccess <==> QUIET_SUCCESS in args)
  {
    FlagsFrom(args, 0, INITIAL);
    assert args[0..] == args;
  }
}
