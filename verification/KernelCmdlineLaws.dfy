/** Parser and printer of the kernel command line, taken together: what one pass through both keeps,
    when it keeps everything, and how few maps the parser needs. */
module KernelCmdlineLaws {
  import opened GoStrings
  import opened KernelCmdline

  /** One pass: print what was parsed. */
  ghost function NormalForm(cmdLine: string): string {
    Printed(ParsedMaps(cmdLine))
  }

  /** A token such as "_=x": its key is the one reserved for arguments without '='. */
  predicate UsesReservedKey(token: string) {
    IsKeyed(token) && KeyOf(token) == KEYLESS
  }

  predicate NoReservedKey(ts: seq<string>) {
    forall t :: t in ts ==> !UsesReservedKey(t)
  }

  // ---------------------------------------------------------------- tokens of the printed line

  /** How a token comes out of the printer. */
  function Shown(token: string): string {
    if UsesReservedKey(token) then ValueOf(token) else token
  }

  function ShownAll(ts: seq<string>): (r: seq<string>)
    ensures |r| == |ts|
    ensures forall i :: 0 <= i < |ts| ==> r[i] == Shown(ts[i])
  {
    seq(|ts|, i requires 0 <= i < |ts| => Shown(ts[i]))
  }

  lemma {:induction false} ArgumentsAgree(m: Args, m': Args, keys: set<string>)
    requires keys <= m.Keys && keys <= m'.Keys
    requires forall k :: k in keys ==> m[k] == m'[k]
    ensures ArgumentsFor(m, keys) == ArgumentsFor(m', keys)
    decreases keys
  {
    if keys == {} {
    } else {
      ArgumentsAgree(m, m', keys - {SomeKey(keys)});
    }
  }

  lemma ArgumentsOfNewKey(m: Args, key: string, value: string)
    requires key !in m
    ensures ArgumentsOf(m[key := value]) == ArgumentsOf(m) + multiset{Argument(key, value)}
  {
    var m' := m[key := value];
    ArgumentsStartAnywhere(m', m'.Keys, key);
    assert m'.Keys - {key} == m.Keys;
    ArgumentsAgree(m, m', m.Keys);
  }

  lemma ShownIsArgument(token: string)
    requires IsKeyed(token)
    ensures Argument(KeyOf(token), ValueOf(token)) == Shown(token)
  {
    KeyThenValue(token);
  }

  lemma {:induction false} ArgumentsOfRun(run: seq<string>)
    requires DistinctKeys(run)
    requires forall t :: t in run ==> IsKeyed(t)
    ensures ArgumentsOf(RunMap(run)) == multiset(ShownAll(run))
  {
    if run == [] {
    } else {
      var last := |run| - 1;
      var front, token := run[..last], run[last];
      assert ShownAll(run) == ShownAll(front) + [Shown(token)];
      ArgumentsOfRun(front);
      assert KeyOf(token) !in RunMap(front);
      ArgumentsOfNewKey(RunMap(front), KeyOf(token), ValueOf(token));
      ShownIsArgument(token);
    }
  }

  lemma {:induction false} ArgumentsOfAllConcat(a: seq<Args>, b: seq<Args>)
    ensures ArgumentsOfAll(a + b) == ArgumentsOfAll(a) + ArgumentsOfAll(b)
    decreases |b|
  {
    if b == [] {
      assert a + b == a;
    } else {
      var last := |b| - 1;
      assert (a + b)[..|a + b| - 1] == a + b[..last];
      ArgumentsOfAllConcat(a, b[..last]);
    }
  }

  lemma ShownAllConcat(a: seq<string>, b: seq<string>)
    ensures ShownAll(a + b) == ShownAll(a) + ShownAll(b)
  {
  }

  lemma ArgumentsOfSingle(run: seq<string>)
    ensures ArgumentsOfAll([RunMap(run)]) == ArgumentsOf(RunMap(run))
    ensures RunMaps([run]) == [RunMap(run)]
  {
    assert [RunMap(run)][..0] == [];
  }

  /** The arguments of all runs still to come. */
  ghost function ArgumentsFrom(current: seq<string>, ts: seq<string>): multiset<string> {
    ArgumentsOfAll(RunMaps(RunsFrom(current, ts)))
  }

  lemma ArgumentsOfClosedRun(current: seq<string>, ts: seq<string>)
    requires DistinctKeys(current)
    requires forall t :: t in current || t in ts ==> IsKeyed(t)
    requires ts != [] && UsesKey(current, KeyOf(ts[0]))
    requires ArgumentsFrom([ts[0]], ts[1..]) == multiset(ShownAll(ts))
    ensures ArgumentsFrom(current, ts) == multiset(ShownAll(current + ts))
  {
    var later := RunsFrom([ts[0]], ts[1..]);
    RunMapsPush(current, later);
    ArgumentsOfAllConcat([RunMap(current)], RunMaps(later));
    ArgumentsOfSingle(current);
    ArgumentsOfRun(current);
    ShownAllConcat(current, ts);
  }

  lemma ArgumentsOfLastRun(current: seq<string>)
    requires DistinctKeys(current)
    requires forall t :: t in current ==> IsKeyed(t)
    ensures ArgumentsFrom(current, []) == multiset(ShownAll(current))
  {
    ArgumentsOfRun(current);
    if current != [] { ArgumentsOfSingle(current); }
  }

  lemma OpenRun(current: seq<string>, ts: seq<string>)
    requires DistinctKeys(current)
    requires ts != [] && !UsesKey(current, KeyOf(ts[0]))
    ensures DistinctKeys(current + [ts[0]])
    ensures RunsFrom(current, ts) == RunsFrom(current + [ts[0]], ts[1..])
    ensures (current + [ts[0]]) + ts[1..] == current + ts
  {
  }

  lemma {:induction false} ArgumentsOfRuns(current: seq<string>, ts: seq<string>)
    requires DistinctKeys(current)
    requires forall t :: t in current || t in ts ==> IsKeyed(t)
    ensures ArgumentsFrom(current, ts) == multiset(ShownAll(current + ts))
    decreases |ts|
  {
    if ts == [] {
      ArgumentsOfLastRun(current);
      assert current + ts == current;
    } else {
      var t, rest := ts[0], ts[1..];
      if UsesKey(current, KeyOf(t)) {
        ArgumentsOfRuns([t], rest);
        assert [t] + rest == ts;
        ArgumentsOfClosedRun(current, ts);
      } else {
        OpenRun(current, ts);
        ArgumentsOfRuns(current + [t], rest);
      }
    }
  }

  /** The keyless arguments travel together, as one printed argument. */
  function KeylessArgument(ts: seq<string>): seq<string> {
    if Keyless(ts) == [] then [] else [Join(Keyless(ts), ' ')]
  }

  lemma ArgumentsOfKeyless(value: string)
    ensures ArgumentsOfAll([map[KEYLESS := value]]) == multiset{value}
  {
    var m := map[KEYLESS := value];
    assert [m][..0] == [];
    ArgumentsStartAnywhere(m, m.Keys, KEYLESS);
    assert m.Keys - {KEYLESS} == {};
  }

  lemma ArgumentsOfParsed(s: string)
    requires s != ""
    ensures ArgumentsOfAll(ParsedMaps(s)) ==
            multiset(ShownAll(Keyed(Tokens(s))) + KeylessArgument(Tokens(s)))
  {
    var ts := Tokens(s);
    var runs := RunMaps(RunsFrom([], Keyed(ts)));
    ArgumentsOfRuns([], Keyed(ts));
    assert [] + Keyed(ts) == Keyed(ts);
    if Keyless(ts) == [] {
      assert ParsedMaps(s) == runs;
    } else {
      ArgumentsOfAllConcat(runs, [map[KEYLESS := Join(Keyless(ts), ' ')]]);
      ArgumentsOfKeyless(Join(Keyless(ts), ' '));
    }
  }

  // ---------------------------------------------------------------- rearrangements

  lemma WithoutAt(b: seq<string>, i: nat)
    requires i < |b|
    ensures b == b[..i] + [b[i]] + b[i + 1..]
    ensures multiset(b[..i] + b[i + 1..]) == multiset(b) - multiset{b[i]}
  {
    assert b == b[..i] + [b[i]] + b[i + 1..];
  }

  lemma PullOut(a: seq<string>, b: seq<string>) returns (i: nat)
    requires a != [] && multiset(a) == multiset(b)
    ensures i < |b| && b[i] == a[0]
    ensures b == b[..i] + [b[i]] + b[i + 1..]
    ensures multiset(a[1..]) == multiset(b[..i] + b[i + 1..])
  {
    TailBag(a);
    assert a[0] in multiset(b);
    i :| 0 <= i < |b| && b[i] == a[0];
    WithoutAt(b, i);
  }

  lemma {:induction false} SplitAllRearranged(a: seq<string>, b: seq<string>, sep: char)
    requires multiset(a) == multiset(b)
    ensures multiset(SplitAll(a, sep)) == multiset(SplitAll(b, sep))
  {
    assert |multiset(a)| == |multiset(b)|;
    if a != [] {
      var i := PullOut(a, b);
      SplitAllRearranged(a[1..], b[..i] + b[i + 1..], sep);
      SplitAllConcat(b[..i] + [b[i]], b[i + 1..], sep);
      SplitAllConcat(b[..i], [b[i]], sep);
      SplitAllConcat(b[..i], b[i + 1..], sep);
      assert SplitAll([b[i]], sep) == Split(b[i], sep);
    }
  }

  function TotalLength(ts: seq<string>): nat {
    if ts == [] then 0 else |ts[0]| + TotalLength(ts[1..])
  }

  lemma {:induction false} TotalLengthConcat(a: seq<string>, b: seq<string>)
    ensures TotalLength(a + b) == TotalLength(a) + TotalLength(b)
  {
    if a == [] {
      assert a + b == b;
    } else {
      assert (a + b)[1..] == a[1..] + b;
      TotalLengthConcat(a[1..], b);
    }
  }

  lemma {:induction false} TotalLengthRearranged(a: seq<string>, b: seq<string>)
    requires multiset(a) == multiset(b)
    ensures TotalLength(a) == TotalLength(b)
  {
    assert |multiset(a)| == |multiset(b)|;
    if a != [] {
      var i := PullOut(a, b);
      TotalLengthRearranged(a[1..], b[..i] + b[i + 1..]);
      TotalLengthConcat(b[..i] + [b[i]], b[i + 1..]);
      TotalLengthConcat(b[..i], [b[i]]);
      TotalLengthConcat(b[..i], b[i + 1..]);
      assert TotalLength([b[i]]) == |b[i]|;
    }
  }

  lemma {:induction false} ShownTokensAreShorter(ts: seq<string>)
    ensures TotalLength(ShownAll(ts)) <= TotalLength(ts)
    ensures !NoReservedKey(ts) ==> TotalLength(ShownAll(ts)) < TotalLength(ts)
  {
    if ts == [] {
    } else {
      assert ts == [ts[0]] + ts[1..];
      ShownAllConcat([ts[0]], ts[1..]);
      assert ShownAll(ts)[1..] == ShownAll(ts[1..]);
      ShownTokensAreShorter(ts[1..]);
      if UsesReservedKey(ts[0]) { KeyThenValue(ts[0]); }
    }
  }

  lemma ShownFirst(ts: seq<string>)
    requires ts != []
    ensures ShownAll(ts) == [Shown(ts[0])] + ShownAll(ts[1..])
  {
  }

  lemma ShownBag(t: string, rest: seq<string>)
    ensures multiset(ShownAll([t] + rest)) == multiset{Shown(t)} + multiset(ShownAll(rest))
  {
    ShownFirst([t] + rest);
    assert ([t] + rest)[1..] == rest;
  }

  lemma KeyedComesFirst(ts: seq<string>)
    requires ts != [] && IsKeyed(ts[0])
    ensures multiset(ShownAll(Keyed(ts))) == multiset{Shown(ts[0])} + multiset(ShownAll(Keyed(ts[1..])))
    ensures Keyless(ts) == Keyless(ts[1..])
  {
    FilterFirst(ts);
    ShownBag(ts[0], Keyed(ts[1..]));
  }

  lemma KeylessComesFirst(ts: seq<string>)
    requires ts != [] && !IsKeyed(ts[0])
    ensures Keyed(ts) == Keyed(ts[1..])
    ensures multiset(Keyless(ts)) == multiset{Shown(ts[0])} + multiset(Keyless(ts[1..]))
  {
    FilterFirst(ts);
  }

  lemma FirstIsShown(ts: seq<string>)
    requires ts != []
    ensures multiset(ShownAll(ts)) == multiset{Shown(ts[0])} + multiset(ShownAll(ts[1..]))
  {
    assert ts == [ts[0]] + ts[1..];
    ShownBag(ts[0], ts[1..]);
  }

  lemma FirstIsListed(ts: seq<string>)
    requires ts != []
    ensures multiset(ShownAll(Keyed(ts))) + multiset(Keyless(ts)) ==
            multiset{Shown(ts[0])} + (multiset(ShownAll(Keyed(ts[1..]))) + multiset(Keyless(ts[1..])))
  {
    if IsKeyed(ts[0]) { KeyedComesFirst(ts); } else { KeylessComesFirst(ts); }
  }

  lemma {:induction false} KeyedThenKeyless(ts: seq<string>)
    ensures multiset(ShownAll(ts)) == multiset(ShownAll(Keyed(ts))) + multiset(Keyless(ts))
  {
    if ts == [] {
    } else {
      KeyedThenKeyless(ts[1..]);
      FirstIsListed(ts);
      FirstIsShown(ts);
    }
  }

  // ---------------------------------------------------------------- what one pass keeps

  /** The printed arguments, in reading order. */
  function Listing(ts: seq<string>): seq<string> {
    ShownAll(Keyed(ts)) + KeylessArgument(ts)
  }

  lemma ListingIsNotEmpty(ts: seq<string>)
    requires ts != []
    ensures Listing(ts) != []
  {
    KeyedThenKeyless(ts);
    assert |multiset(ShownAll(ts))| == |ts|;
  }

  lemma TokensOfKeyless(ts: seq<string>)
    requires forall t :: t in ts ==> ' ' !in t
    ensures SplitAll(KeylessArgument(ts), ' ') == Keyless(ts)
  {
    if Keyless(ts) != [] {
      SplitJoin(Keyless(ts), ' ');
      SplitAllPlain(Keyless(ts), ' ');
      assert KeylessArgument(ts)[1..] == [];
    }
  }

  lemma ShownKeyedIsPlain(ts: seq<string>, i: nat)
    requires forall t :: t in ts ==> ' ' !in t
    requires i < |Keyed(ts)|
    ensures ' ' !in ShownAll(Keyed(ts))[i]
  {
    assert Keyed(ts)[i] in ts;
  }

  lemma TokensOfListing(ts: seq<string>)
    requires forall t :: t in ts ==> ' ' !in t
    ensures multiset(SplitAll(Listing(ts), ' ')) == multiset(ShownAll(ts))
  {
    var keyed, keyless := ShownAll(Keyed(ts)), Keyless(ts);
    SplitAllConcat(keyed, KeylessArgument(ts), ' ');
    forall t | t in keyed ensures ' ' !in t {
      var i :| 0 <= i < |keyed| && keyed[i] == t;
      ShownKeyedIsPlain(ts, i);
    }
    SplitAllPlain(keyed, ' ');
    TokensOfKeyless(ts);
    KeyedThenKeyless(ts);
  }

  lemma NormalFormTokens(s: string)
    requires s != ""
    ensures NormalForm(s) == Join(SortedBag(multiset(Listing(Tokens(s)))), ' ')
    ensures Tokens(NormalForm(s)) == SplitAll(SortedBag(multiset(Listing(Tokens(s)))), ' ')
  {
    var items := SortedBag(multiset(Listing(Tokens(s))));
    ArgumentsOfParsed(s);
    ListingIsNotEmpty(Tokens(s));
    assert |multiset(items)| > 0;
    SplitJoin(items, ' ');
  }

  /** For every line: the tokens of the normal form are the tokens of the line, each "_=x" shown as "x". */
  lemma PrintedTokens(s: string)
    ensures multiset(Tokens(NormalForm(s))) == multiset(ShownAll(Tokens(s)))
  {
    if s == "" {
      assert Tokens("") == [""];
    } else {
      NormalFormTokens(s);
      SplitAllRearranged(SortedBag(multiset(Listing(Tokens(s)))), Listing(Tokens(s)), ' ');
      TokensOfListing(Tokens(s));
    }
  }

  /** Reading a line and printing it again keeps its tokens, with their multiplicities, exactly when
      no token uses the reserved key. */
  lemma TokensKeptIffNoReservedKey(s: string)
    ensures multiset(Tokens(NormalForm(s))) == multiset(Tokens(s)) <==> NoReservedKey(Tokens(s))
  {
    PrintedTokens(s);
    ShownKeptIffNoReservedKey(Tokens(s));
  }

  /** A line that loses its token: "_=x" comes back as "x". */
  lemma ReservedKeyIsLost()
    ensures Tokens("_=x") == ["_=x"]
    ensures multiset(Tokens(NormalForm("_=x"))) == multiset{"x"}
  {
    SplitPlain("_=x", ' ');
    KeyThenValue("_=x");
    assert KeyOf("_=x") == "_";
    assert ShownAll(Tokens("_=x")) == ["x"];
    PrintedTokens("_=x");
  }

  lemma ShownKeptIffNoReservedKey(ts: seq<string>)
    ensures multiset(ShownAll(ts)) == multiset(ts) <==> NoReservedKey(ts)
  {
    if NoReservedKey(ts) {
      assert ShownAll(ts) == ts;
    } else {
      ShownTokensAreShorter(ts);
      if multiset(ShownAll(ts)) == multiset(ts) { TotalLengthRearranged(ShownAll(ts), ts); }
    }
  }

  // ---------------------------------------------------------------- order and number of the maps

  /** The values given for a key, in reading order. */
  function ValuesFor(ts: seq<string>, key: string): seq<string> {
    if ts == [] then []
    else (if IsKeyed(ts[0]) && KeyOf(ts[0]) == key then [ValueOf(ts[0])] else []) + ValuesFor(ts[1..], key)
  }

  /** The values a list of maps holds for a key, in list order. */
  function ValuesIn(ms: seq<Args>, key: string): seq<string> {
    if ms == [] then [] else (if key in ms[0] then [ms[0][key]] else []) + ValuesIn(ms[1..], key)
  }

  lemma {:induction false} ValuesForConcat(a: seq<string>, b: seq<string>, key: string)
    ensures ValuesFor(a + b, key) == ValuesFor(a, key) + ValuesFor(b, key)
  {
    if a == [] {
      assert a + b == b;
    } else {
      assert (a + b)[1..] == a[1..] + b;
      ValuesForConcat(a[1..], b, key);
    }
  }

  lemma {:induction false} ValuesInConcat(a: seq<Args>, b: seq<Args>, key: string)
    ensures ValuesIn(a + b, key) == ValuesIn(a, key) + ValuesIn(b, key)
  {
    if a == [] {
      assert a + b == b;
    } else {
      assert (a + b)[1..] == a[1..] + b;
      ValuesInConcat(a[1..], b, key);
      Associates(if key in a[0] then [a[0][key]] else [], ValuesIn(a[1..], key), ValuesIn(b, key));
    }
  }

  lemma ValuesForOne(token: string, key: string)
    ensures ValuesFor([token], key) == if IsKeyed(token) && KeyOf(token) == key then [ValueOf(token)] else []
  {
    assert [token][1..] == [];
  }

  lemma ValuesOfLongerRun(front: seq<string>, token: string, key: string)
    requires IsKeyed(token) && KeyOf(token) !in RunMap(front)
    ensures ValuesIn([RunMap(front + [token])], key) == ValuesIn([RunMap(front)], key) + ValuesFor([token], key)
  {
    RunMapPush(front, token);
    ValuesForOne(token, key);
    ValuesInOne(RunMap(front + [token]), key);
    ValuesInOne(RunMap(front), key);
  }

  lemma LastKeyIsNew(front: seq<string>, token: string)
    requires DistinctKeys(front + [token])
    ensures DistinctKeys(front) && !UsesKey(front, KeyOf(token))
  {
    var run := front + [token];
    assert run[|front|] == token;
    forall i | 0 <= i < |front| ensures KeyOf(front[i]) != KeyOf(token) { assert run[i] == front[i]; }
    forall i, j | 0 <= i < j < |front| ensures KeyOf(front[i]) != KeyOf(front[j]) {
      assert run[i] == front[i] && run[j] == front[j];
    }
  }

  lemma {:induction false} ValuesOfRun(run: seq<string>, key: string)
    requires DistinctKeys(run)
    requires forall t :: t in run ==> IsKeyed(t)
    ensures ValuesFor(run, key) == ValuesIn([RunMap(run)], key)
  {
    if run == [] {
    } else {
      var front, token := run[..|run| - 1], run[|run| - 1];
      assert run == front + [token];
      LastKeyIsNew(front, token);
      ValuesOfRun(front, key);
      ValuesForConcat(front, [token], key);
      ValuesOfLongerRun(front, token, key);
    }
  }

  lemma ValuesInOne(m: Args, key: string)
    ensures ValuesIn([m], key) == if key in m then [m[key]] else []
  {
    assert [m][1..] == [];
  }

  lemma {:induction false} ValuesOfRuns(current: seq<string>, ts: seq<string>, key: string)
    requires DistinctKeys(current)
    requires forall t :: t in current || t in ts ==> IsKeyed(t)
    ensures ValuesIn(RunMaps(RunsFrom(current, ts)), key) == ValuesFor(current + ts, key)
    decreases |ts|
  {
    if ts == [] {
      ValuesOfRun(current, key);
      ValuesOfLastRun(current, key);
      assert current + ts == current;
    } else {
      var t, rest := ts[0], ts[1..];
      if UsesKey(current, KeyOf(t)) {
        ValuesOfRuns([t], rest, key);
        assert [t] + rest == ts;
        ValuesOfClosedRun(current, ts, key);
      } else {
        OpenRun(current, ts);
        ValuesOfRuns(current + [t], rest, key);
      }
    }
  }

  lemma ValuesOfLastRun(current: seq<string>, key: string)
    ensures ValuesIn(RunMaps(RunsFrom(current, [])), key) == ValuesIn([RunMap(current)], key)
  {
    if current != [] { assert [current][1..] == []; }
    assert [RunMap(current)][1..] == [];
  }

  lemma ValuesOfClosedRun(current: seq<string>, ts: seq<string>, key: string)
    requires DistinctKeys(current)
    requires forall t :: t in current || t in ts ==> IsKeyed(t)
    requires ts != [] && UsesKey(current, KeyOf(ts[0]))
    requires ValuesIn(RunMaps(RunsFrom([ts[0]], ts[1..])), key) == ValuesFor(ts, key)
    ensures ValuesIn(RunMaps(RunsFrom(current, ts)), key) == ValuesFor(current + ts, key)
  {
    var later := RunsFrom([ts[0]], ts[1..]);
    RunMapsPush(current, later);
    ValuesInConcat([RunMap(current)], RunMaps(later), key);
    ValuesOfRun(current, key);
    ValuesForConcat(current, ts, key);
  }

  lemma {:induction false} ValuesForKeyed(ts: seq<string>, key: string)
    ensures ValuesFor(Keyed(ts), key) == ValuesFor(ts, key)
  {
    if ts == [] {
    } else {
      FilterFirst(ts);
      ValuesForKeyed(ts[1..], key);
      if IsKeyed(ts[0]) { assert Keyed(ts)[1..] == Keyed(ts[1..]); }
    }
  }

  /** Every key but the reserved one keeps its values in order across the list of maps, repetitions included. */
  lemma ValuesKeepTheirOrder(s: string, key: string)
    requires key != KEYLESS
    ensures ValuesIn(ParsedMaps(s), key) == ValuesFor(Tokens(s), key)
  {
    var ts := Tokens(s);
    if s == "" {
      assert ts == [""] && ts[1..] == [];
    } else {
      ValuesOfRuns([], Keyed(ts), key);
      assert [] + Keyed(ts) == Keyed(ts);
      ValuesForKeyed(ts, key);
      if Keyless(ts) != [] {
        var m := map[KEYLESS := Join(Keyless(ts), ' ')];
        ValuesInConcat(RunMaps(RunsFrom([], Keyed(ts))), [m], key);
        assert [m][1..] == [];
      } else {
        assert ParsedMaps(s) == RunMaps(RunsFrom([], Keyed(ts)));
      }
    }
  }

  function Concatenated(runs: seq<seq<string>>): seq<string> {
    if runs == [] then [] else runs[0] + Concatenated(runs[1..])
  }

  /** A division of tokens into contiguous runs none of which repeats a key. */
  ghost predicate IsDivision(runs: seq<seq<string>>, ts: seq<string>) {
    && Concatenated(runs) == ts
    && forall i :: 0 <= i < |runs| ==> DistinctKeys(runs[i])
  }

  lemma DivisionPush(run: seq<string>, runs: seq<seq<string>>, ts: seq<string>)
    requires DistinctKeys(run) && IsDivision(runs, ts)
    ensures IsDivision([run] + runs, run + ts)
  {
    assert ([run] + runs)[1..] == runs;
  }

  lemma {:induction false} FirstRunExtends(current: seq<string>, ts: seq<string>)
    requires current != []
    ensures RunsFrom(current, ts) != [] && current <= RunsFrom(current, ts)[0]
    decreases |ts|
  {
    if ts == [] {
    } else if !UsesKey(current, KeyOf(ts[0])) {
      FirstRunExtends(current + [ts[0]], ts[1..]);
    }
  }

  /** A run ends only where the next token repeats one of its keys. */
  ghost predicate EndsAtRepeat(runs: seq<seq<string>>, i: int)
    requires 0 <= i < |runs| - 1
  {
    runs[i + 1] != [] && UsesKey(runs[i], KeyOf(runs[i + 1][0]))
  }

  lemma {:induction false} GreedyRunsEndAtRepeats(current: seq<string>, ts: seq<string>)
    ensures forall i :: 0 <= i < |RunsFrom(current, ts)| - 1 ==> EndsAtRepeat(RunsFrom(current, ts), i)
    decreases |ts|
  {
    if ts == [] {
    } else if UsesKey(current, KeyOf(ts[0])) {
      var later := RunsFrom([ts[0]], ts[1..]);
      GreedyRunsEndAtRepeats([ts[0]], ts[1..]);
      FirstRunExtends([ts[0]], ts[1..]);
      forall i | 0 <= i < |later| ensures EndsAtRepeat([current] + later, i) {
        if i > 0 { assert EndsAtRepeat(later, i - 1); }
      }
    } else {
      GreedyRunsEndAtRepeats(current + [ts[0]], ts[1..]);
    }
  }

  /** A map with the keys and values of a run and nothing else. */
  ghost predicate HoldsRun(m: Args, run: seq<string>) {
    && (forall k :: k in m <==> exists i :: 0 <= i < |run| && KeyOf(run[i]) == k)
    && (forall i :: 0 <= i < |run| ==> KeyOf(run[i]) in m && m[KeyOf(run[i])] == ValueOf(run[i]))
  }

  lemma {:induction false} RunMapValue(run: seq<string>, i: nat)
    requires DistinctKeys(run) && i < |run|
    ensures KeyOf(run[i]) in RunMap(run) && RunMap(run)[KeyOf(run[i])] == ValueOf(run[i])
  {
    var front, token := run[..|run| - 1], run[|run| - 1];
    assert run == front + [token];
    LastKeyIsNew(front, token);
    RunMapPush(front, token);
    if i < |front| {
      assert run[i] == front[i];
      RunMapValue(front, i);
    }
  }

  lemma RunMapKey(run: seq<string>, k: string)
    ensures k in RunMap(run) <==> exists i :: 0 <= i < |run| && KeyOf(run[i]) == k
  {
    assert k in RunMap(run) <==> UsesKey(run, k);
  }

  lemma RunMapHoldsRun(run: seq<string>)
    requires DistinctKeys(run)
    ensures HoldsRun(RunMap(run), run)
  {
    forall i | 0 <= i < |run| ensures KeyOf(run[i]) in RunMap(run) && RunMap(run)[KeyOf(run[i])] == ValueOf(run[i]) {
      RunMapValue(run, i);
    }
    forall k ensures k in RunMap(run) <==> exists i :: 0 <= i < |run| && KeyOf(run[i]) == k { RunMapKey(run, k); }
  }

  lemma {:induction false} MapsOfRuns(runs: seq<seq<string>>, i: nat)
    requires i < |runs|
    ensures RunMaps(runs)[i] == RunMap(runs[i])
  {
    if i == 0 {
    } else {
      MapsOfRuns(runs[1..], i - 1);
    }
  }

  /** What the parser returns for a line, all of it: the key=value tokens divided into contiguous runs, each
      ending only where its key would repeat; a map a run; and behind these one map of the keyless tokens,
      joined as they come, if there are any. */
  lemma ParserIsGreedy(s: string) returns (runs: seq<seq<string>>)
    requires s != ""
    ensures IsDivision(runs, Keyed(Tokens(s)))
    ensures forall i :: 0 <= i < |runs| - 1 ==> EndsAtRepeat(runs, i)
    ensures |ParsedMaps(s)| == |runs| + if Keyless(Tokens(s)) == [] then 0 else 1
    ensures forall i :: 0 <= i < |runs| ==> HoldsRun(ParsedMaps(s)[i], runs[i])
    ensures Keyless(Tokens(s)) != [] ==> ParsedMaps(s)[|runs|] == map["_" := Join(Keyless(Tokens(s)), ' ')]
  {
    var ts := Keyed(Tokens(s));
    runs := RunsFrom([], ts);
    assert [] + ts == ts;
    GreedyIsDivision([], ts);
    GreedyRunsEndAtRepeats([], ts);
    forall i | 0 <= i < |runs| ensures HoldsRun(ParsedMaps(s)[i], runs[i]) {
      MapsOfRuns(runs, i);
      RunMapHoldsRun(runs[i]);
    }
  }

  lemma {:induction false} GreedyIsDivision(current: seq<string>, ts: seq<string>)
    requires DistinctKeys(current)
    ensures IsDivision(RunsFrom(current, ts), current + ts)
    decreases |ts|
  {
    if ts == [] {
      if current != [] { DivisionPush(current, [], []); }
    } else {
      var t, rest := ts[0], ts[1..];
      if UsesKey(current, KeyOf(t)) {
        GreedyIsDivision([t], rest);
        assert [t] + rest == ts;
        DivisionPush(current, RunsFrom([t], rest), ts);
      } else {
        OpenRun(current, ts);
        GreedyIsDivision(current + [t], rest);
      }
    }
  }

  ghost predicate IsSuffix(a: seq<string>, b: seq<string>) {
    |a| <= |b| && b[|b| - |a|..] == a
  }

  /** Greedy stays ahead: `own` is what a rival division has of its current run, `rivals` its runs from
      there on. The open greedy run never reaches further back than the rival's, unless the greedy
      division is already one run behind. */
  lemma {:induction false} GreedyStaysAhead(current: seq<string>, ts: seq<string>, own: seq<string>,
                                            rivals: seq<seq<string>>)
    requires rivals != [] && own <= rivals[0]
    requires IsDivision(rivals, own + ts)
    ensures |RunsFrom(current, ts)| <= |rivals| + if IsSuffix(current, own) then 0 else 1
    decreases |ts|, |rivals|
  {
    if ts == [] {
    } else {
      var t, rest := ts[0], ts[1..];
      if own == rivals[0] {
        assert Concatenated(rivals[1..]) == Concatenated(rivals)[|own|..] == (own + ts)[|own|..] == ts;
        assert [] + ts == ts;
        GreedyStaysAhead(current, ts, [], rivals[1..]);
      } else {
        assert own + ts == (own + [t]) + rest;
        assert rivals[0] == Concatenated(rivals)[..|rivals[0]|];
        assert own + [t] <= rivals[0];
        if UsesKey(current, KeyOf(t)) {
          GreedyStaysAhead([t], rest, own + [t], rivals);
          if IsSuffix(current, own) { RepeatedKey(current, own, t, rivals[0]); }
        } else {
          GreedyStaysAhead(current + [t], rest, own + [t], rivals);
        }
      }
    }
  }

  lemma RepeatedKey(current: seq<string>, own: seq<string>, t: string, run: seq<string>)
    requires UsesKey(current, KeyOf(t)) && IsSuffix(current, own) && own + [t] <= run
    ensures !DistinctKeys(run)
  {
    var i :| 0 <= i < |current| && KeyOf(current[i]) == KeyOf(t);
    var j := |own| - |current| + i;
    assert own[j] == current[i];
    assert run[j] == own[j] && run[|own|] == t;
  }

  /** No division of the key=value tokens into runs without a repeated key has fewer runs than the
      parser has maps for them. */
  lemma FewestMaps(s: string, runs: seq<seq<string>>)
    requires IsDivision(runs, Keyed(Tokens(s)))
    ensures IsDivision(RunsFrom([], Keyed(Tokens(s))), Keyed(Tokens(s)))
    ensures |ParsedMaps(s)| <= |runs| + (if Keyless(Tokens(s)) == [] then 0 else 1)
  {
    var ts := Keyed(Tokens(s));
    assert [] + ts == ts;
    GreedyIsDivision([], ts);
    if runs != [] {
      GreedyStaysAhead([], ts, [], runs);
    }
  }
}
