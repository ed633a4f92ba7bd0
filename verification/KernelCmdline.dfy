/** The kernel command line: the parser that reads it into a list of maps, and the printer that
    writes such a list back. */
module KernelCmdline {
  import opened GoStrings

  /** One element of the "cmdline" list of a domain. */
  type Args = map<string, string>

  /** The key under which arguments without '=' are kept. */
  const KEYLESS := "_"

  function Tokens(cmdLine: string): seq<string> { Split(cmdLine, ' ') }

  predicate IsKeyed(token: string) { '=' in token }

  /** The text before the first '='. */
  function KeyOf(token: string): (key: string)
    ensures '=' !in key
    ensures key <= token
  {
    if token == "" || token[0] == '=' then "" else [token[0]] + KeyOf(token[1..])
  }

  /** The text after the first '='. */
  function ValueOf(token: string): string {
    if |KeyOf(token)| < |token| then token[|KeyOf(token)| + 1..] else ""
  }

  lemma {:induction false} KeyEndsAtFirstEquals(token: string)
    requires IsKeyed(token)
    ensures |KeyOf(token)| < |token| && token[|KeyOf(token)|] == '='
  {
    if token[0] != '=' {
      KeyEndsAtFirstEquals(token[1..]);
    }
  }

  lemma KeyThenValue(token: string)
    requires IsKeyed(token)
    ensures token == KeyOf(token) + "=" + ValueOf(token)
  {
    KeyEndsAtFirstEquals(token);
  }

  function Keyed(ts: seq<string>): (r: seq<string>)
    ensures forall t :: t in r ==> IsKeyed(t) && t in ts
  {
    if ts == [] then [] else (if IsKeyed(ts[0]) then [ts[0]] else []) + Keyed(ts[1..])
  }

  function Keyless(ts: seq<string>): (r: seq<string>)
    ensures forall t :: t in r ==> !IsKeyed(t) && t in ts
  {
    if ts == [] then [] else (if IsKeyed(ts[0]) then [] else [ts[0]]) + Keyless(ts[1..])
  }

  // ---------------------------------------------------------------- the parser

  predicate UsesKey(run: seq<string>, key: string) {
    exists i :: 0 <= i < |run| && KeyOf(run[i]) == key
  }

  ghost predicate DistinctKeys(run: seq<string>) {
    forall i, j :: 0 <= i < j < |run| ==> KeyOf(run[i]) != KeyOf(run[j])
  }

  /** Greedy division into runs: a token whose key the current run already has starts the next run. */
  function RunsFrom(current: seq<string>, ts: seq<string>): seq<seq<string>>
    decreases |ts|
  {
    if ts == [] then if current == [] then [] else [current]
    else if UsesKey(current, KeyOf(ts[0])) then [current] + RunsFrom([ts[0]], ts[1..])
    else RunsFrom(current + [ts[0]], ts[1..])
  }

  function RunMap(run: seq<string>): (m: Args)
    ensures forall k :: k in m <==> UsesKey(run, k)
  {
    if run == [] then map[]
    else
      var last := |run| - 1;
      assert forall k :: UsesKey(run, k) <==> UsesKey(run[..last], k) || k == KeyOf(run[last]) by {
        forall k | UsesKey(run[..last], k) ensures UsesKey(run, k) {
          var i :| 0 <= i < last && KeyOf(run[..last][i]) == k;
          assert KeyOf(run[i]) == k;
        }
        forall k | UsesKey(run, k) && k != KeyOf(run[last]) ensures UsesKey(run[..last], k) {
          var i :| 0 <= i < |run| && KeyOf(run[i]) == k;
          assert KeyOf(run[..last][i]) == k;
        }
        assert UsesKey(run, KeyOf(run[last]));
      }
      RunMap(run[..last])[KeyOf(run[last]) := ValueOf(run[last])]
  }

  function RunMaps(runs: seq<seq<string>>): (ms: seq<Args>)
    ensures |ms| == |runs|
  {
    if runs == [] then [] else [RunMap(runs[0])] + RunMaps(runs[1..])
  }

  /** What the parser returns: one map a run, then the keyless tokens under one key. */
  function ParsedMaps(cmdLine: string): seq<Args> {
    if cmdLine == "" then []
    else
      var ts := Tokens(cmdLine);
      RunMaps(RunsFrom([], Keyed(ts)))
      + if Keyless(ts) == [] then [] else [map[KEYLESS := Join(Keyless(ts), ' ')]]
  }

  /** The maps still to come when `current` is open and `ts` is unread. */
  function MapsFrom(current: seq<string>, ts: seq<string>): seq<Args> {
    RunMaps(RunsFrom(current, Keyed(ts)))
  }

  lemma RunMapsPush(run: seq<string>, runs: seq<seq<string>>)
    ensures RunMaps([run] + runs) == [RunMap(run)] + RunMaps(runs)
  {
    assert ([run] + runs)[1..] == runs;
  }

  lemma RunsStep(current: seq<string>, t: string, later: seq<string>)
    ensures RunsFrom(current, [t] + later) ==
            if UsesKey(current, KeyOf(t)) then [current] + RunsFrom([t], later) else RunsFrom(current + [t], later)
  {
    assert ([t] + later)[1..] == later;
  }

  lemma FilterFirst(ts: seq<string>)
    requires ts != []
    ensures IsKeyed(ts[0]) ==> Keyed(ts) == [ts[0]] + Keyed(ts[1..]) && Keyless(ts) == Keyless(ts[1..])
    ensures !IsKeyed(ts[0]) ==> Keyed(ts) == Keyed(ts[1..]) && Keyless(ts) == [ts[0]] + Keyless(ts[1..])
  {
  }

  lemma ReadKeyed(closed: seq<Args>, current: seq<string>, ts: seq<string>)
    requires ts != [] && IsKeyed(ts[0])
    ensures closed + MapsFrom(current, ts) ==
            if KeyOf(ts[0]) in RunMap(current) then closed + [RunMap(current)] + MapsFrom([ts[0]], ts[1..])
            else closed + MapsFrom(current + [ts[0]], ts[1..])
  {
    FilterFirst(ts);
    RunsStep(current, ts[0], Keyed(ts[1..]));
    RunMapsPush(current, RunsFrom([ts[0]], Keyed(ts[1..])));
  }

  /** What the loop of the parser holds and what it has yet to read make up what is to be read in all. */
  ghost predicate Pending(closed: seq<Args>, current: seq<string>, keyless: seq<string>, unread: seq<string>,
                          all: seq<string>)
  {
    && keyless + Keyless(unread) == Keyless(all)
    && closed + MapsFrom(current, unread) == MapsFrom([], all)
  }

  lemma ReadKeyless(closed: seq<Args>, current: seq<string>, keyless: seq<string>, unread: seq<string>,
                    all: seq<string>)
    requires Pending(closed, current, keyless, unread, all) && unread != [] && !IsKeyed(unread[0])
    ensures Pending(closed, current, keyless + [unread[0]], unread[1..], all)
  {
    FilterFirst(unread);
    Associates(keyless, [unread[0]], Keyless(unread[1..]));
  }

  lemma ReadToken(closed: seq<Args>, current: seq<string>, keyless: seq<string>, unread: seq<string>, all: seq<string>)
    requires Pending(closed, current, keyless, unread, all) && unread != [] && IsKeyed(unread[0])
    ensures if KeyOf(unread[0]) in RunMap(current) then
              Pending(closed + [RunMap(current)], [unread[0]], keyless, unread[1..], all)
            else
              Pending(closed, current + [unread[0]], keyless, unread[1..], all)
  {
    FilterFirst(unread);
    ReadKeyed(closed, current, unread);
  }

  lemma RunMapPush(current: seq<string>, token: string)
    ensures RunMap(current + [token]) == RunMap(current)[KeyOf(token) := ValueOf(token)]
  {
    assert (current + [token])[..|current|] == current;
  }

  lemma ReadToEnd(current: seq<string>)
    ensures MapsFrom(current, []) == if RunMap(current) == map[] then [] else [RunMap(current)]
  {
    assert current != [] ==> KeyOf(current[0]) in RunMap(current);
  }

  /** The loop below has read everything: what it holds is what ParsedMaps asks for. */
  lemma ParsedAtEnd(cmdLine: string, closed: seq<Args>, current: seq<string>, keyless: seq<string>)
    requires cmdLine != ""
    requires Pending(closed, current, keyless, [], Tokens(cmdLine))
    ensures ParsedMaps(cmdLine) ==
            (if RunMap(current) == map[] then closed else closed + [RunMap(current)])
            + if keyless == [] then [] else [map[KEYLESS := Join(keyless, ' ')]]
  {
    ReadToEnd(current);
    assert keyless + [] == keyless;
  }

  method SplitKernelCmdLine(cmdLine: string) returns (cmdLines: seq<Args>)
    ensures cmdLines == ParsedMaps(cmdLine)
  {
    cmdLines := [];
    if |cmdLine| == 0 {
      return;
    }
    var currCmdLine: Args := map[];
    var keylessCmdLineArgs: seq<string> := [];
    var argVals := Split(cmdLine, ' ');
    ghost var current, unread := [], argVals;
    for i := 0 to |argVals|
      invariant unread == argVals[i..]
      invariant currCmdLine == RunMap(current)
      invariant Pending(cmdLines, current, keylessCmdLineArgs, unread, argVals)
    {
      var argVal := argVals[i];
      ghost var before := unread;
      unread := unread[1..];
      if '=' !in argVal {
        ReadKeyless(cmdLines, current, keylessCmdLineArgs, before, argVals);
        keylessCmdLineArgs := keylessCmdLineArgs + [argVal];
        continue;
      }
      ReadToken(cmdLines, current, keylessCmdLineArgs, before, argVals);
      var k, v := KeyOf(argVal), ValueOf(argVal);
      if k in currCmdLine {
        cmdLines := cmdLines + [currCmdLine];
        currCmdLine := map[];
        current := [];
      }
      currCmdLine := currCmdLine[k := v];
      RunMapPush(current, argVal);
      current := if current == [] then [argVal] else current + [argVal];
    }
    ParsedAtEnd(cmdLine, cmdLines, current, keylessCmdLineArgs);
    if |currCmdLine| > 0 {
      cmdLines := cmdLines + [currCmdLine];
    }
    if |keylessCmdLineArgs| > 0 {
      cmdLines := cmdLines + [map[KEYLESS := Join(keylessCmdLineArgs, ' ')]];
    }
  }

  // ---------------------------------------------------------------- the printer

  /** One printed argument. */
  function Argument(key: string, value: string): string {
    if key == KEYLESS then value else key + "=" + value
  }

  ghost function SomeKey(keys: set<string>): (k: string)
    requires keys != {}
    ensures k in keys
  {
    var k :| k in keys; k
  }

  /** The arguments of one map for the given keys. */
  ghost function ArgumentsFor(m: Args, keys: set<string>): multiset<string>
    requires keys <= m.Keys
  {
    if keys == {} then multiset{} else
      var k := SomeKey(keys);
      multiset{Argument(k, m[k])} + ArgumentsFor(m, keys - {k})
  }

  ghost function ArgumentsOf(m: Args): multiset<string> {
    ArgumentsFor(m, m.Keys)
  }

  ghost function ArgumentsOfAll(ms: seq<Args>): multiset<string> {
    if ms == [] then multiset{} else ArgumentsOfAll(ms[..|ms| - 1]) + ArgumentsOf(ms[|ms| - 1])
  }

  /** The printed line: every argument of every map, sorted, separated by single spaces. */
  ghost function Printed(ms: seq<Args>): string {
    Join(SortedBag(ArgumentsOfAll(ms)), ' ')
  }

  /** Any key of a map may be the first one visited. */
  lemma {:induction false} ArgumentsStartAnywhere(m: Args, keys: set<string>, k: string)
    requires keys <= m.Keys && k in keys
    ensures ArgumentsFor(m, keys) == multiset{Argument(k, m[k])} + ArgumentsFor(m, keys - {k})
    decreases keys
  {
    var k0 := SomeKey(keys);
    if k != k0 {
      ArgumentsStartAnywhere(m, keys - {k0}, k);
      ArgumentsStartAnywhere(m, keys - {k}, k0);
      assert keys - {k0} - {k} == keys - {k} - {k0};
    }
  }

  lemma NextMap(ms: seq<Args>, i: nat)
    requires i < |ms|
    ensures ArgumentsOfAll(ms[..i + 1]) == ArgumentsOfAll(ms[..i]) + ArgumentsOf(ms[i])
  {
    assert ms[..i + 1][..i] == ms[..i];
  }

  lemma PrintedFrom(ms: seq<Args>, arguments: seq<string>)
    requires multiset(arguments) == ArgumentsOfAll(ms)
    ensures Printed(ms) == Join(Sorted(arguments), ' ')
  {
    SortedSorts(arguments);
    SortedIsUnique(Sorted(arguments), SortedBag(ArgumentsOfAll(ms)));
  }

  /** The keys of a map that give an argument: by its value for the reserved key, by "key=value" for any other. */
  function Giving(m: Args, keys: set<string>, x: string): set<string>
    requires keys <= m.Keys
  {
    set k | k in keys && x == if k == "_" then m[k] else k + "=" + m[k]
  }

  lemma GivingOneMore(m: Args, keys: set<string>, x: string, k0: string)
    requires keys <= m.Keys && k0 in keys
    ensures |Giving(m, keys, x)| == |Giving(m, keys - {k0}, x)| + if Argument(k0, m[k0]) == x then 1 else 0
  {
    assert Giving(m, keys, x) == Giving(m, keys - {k0}, x) + if Argument(k0, m[k0]) == x then {k0} else {};
  }

  /** Every key of a map gives one argument. */
  lemma {:induction false} ArgumentCount(m: Args, keys: set<string>, x: string)
    requires keys <= m.Keys
    ensures ArgumentsFor(m, keys)[x] == |Giving(m, keys, x)|
    decreases keys
  {
    if keys == {} {
    } else {
      var k0 := SomeKey(keys);
      ArgumentCount(m, keys - {k0}, x);
      GivingOneMore(m, keys, x, k0);
    }
  }

  lemma VisitOne(m: Args, unvisited: set<string>, k: string, arguments: seq<string>)
    requires unvisited <= m.Keys && k in unvisited
    ensures multiset(arguments + [Argument(k, m[k])]) + ArgumentsFor(m, unvisited - {k}) ==
            multiset(arguments) + ArgumentsFor(m, unvisited)
  {
    ArgumentsStartAnywhere(m, unvisited, k);
  }

  /** The keys of each map are visited in an arbitrary order; the printed line does not depend on it. */
  method SetCmdlineArgs(cmdline: seq<Args>) returns (line: string)
    ensures line == Printed(cmdline)
    ensures exists arguments ::
              InOrder(arguments) && multiset(arguments) == ArgumentsOfAll(cmdline) && line == Join(arguments, ' ')
  {
    var cmdlineArgs: seq<string> := [];
    for i := 0 to |cmdline|
      invariant multiset(cmdlineArgs) == ArgumentsOfAll(cmdline[..i])
    {
      var m := cmdline[i];
      var unvisited := m.Keys;
      ghost var bag := ArgumentsOfAll(cmdline[..i + 1]);
      NextMap(cmdline, i);
      while unvisited != {}
        invariant unvisited <= m.Keys
        invariant multiset(cmdlineArgs) + ArgumentsFor(m, unvisited) == bag
        decreases unvisited
      {
        var k :| k in unvisited;
        VisitOne(m, unvisited, k, cmdlineArgs);
        cmdlineArgs := cmdlineArgs + [Argument(k, m[k])];
        unvisited := unvisited - {k};
      }
    }
    assert cmdline[..|cmdline|] == cmdline;
    PrintedFrom(cmdline, cmdlineArgs);
    SortedIsInOrder(cmdlineArgs);
    line := Join(Sorted(cmdlineArgs), ' ');
  }
}
