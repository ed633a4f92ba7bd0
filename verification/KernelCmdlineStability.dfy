/** When printing what was read is a normal form: exactly which lines a second pass through parser and
    printer leaves alone. The first pass may print several keyless arguments apart from each other, the
    second always prints them as one. */
module KernelCmdlineStability {
  import opened GoStrings
  import opened KernelCmdline
  import opened KernelCmdlineLaws

  // ---------------------------------------------------------------- keyed and keyless

  lemma {:induction false} KeyedMultiplicity(ts: seq<string>, t: string)
    ensures multiset(Keyed(ts))[t] == if IsKeyed(t) then multiset(ts)[t] else 0
    ensures multiset(Keyless(ts))[t] == if IsKeyed(t) then 0 else multiset(ts)[t]
  {
    if ts == [] {
    } else {
      FilterFirst(ts);
      assert ts == [ts[0]] + ts[1..];
      KeyedMultiplicity(ts[1..], t);
    }
  }

  lemma KeyedRearranged(a: seq<string>, b: seq<string>)
    requires multiset(a) == multiset(b)
    ensures multiset(Keyed(a)) == multiset(Keyed(b)) && multiset(Keyless(a)) == multiset(Keyless(b))
  {
    forall t: string
      ensures multiset(Keyed(a))[t] == multiset(Keyed(b))[t] && multiset(Keyless(a))[t] == multiset(Keyless(b))[t]
    {
      KeyedMultiplicity(a, t);
      KeyedMultiplicity(b, t);
    }
  }

  lemma KeyedAndKeyless(ts: seq<string>)
    ensures multiset(ts) == multiset(Keyed(ts)) + multiset(Keyless(ts))
  {
    forall t: string ensures multiset(ts)[t] == (multiset(Keyed(ts)) + multiset(Keyless(ts)))[t] {
      KeyedMultiplicity(ts, t);
    }
  }

  lemma {:induction false} KeyedOnlyConcat(a: seq<string>, b: seq<string>)
    ensures Keyed(a + b) == Keyed(a) + Keyed(b)
  {
    if a == [] {
      assert a + b == b;
    } else {
      assert (a + b)[1..] == a[1..] + b;
      KeyedOnlyConcat(a[1..], b);
    }
  }

  lemma {:induction false} KeylessOnlyConcat(a: seq<string>, b: seq<string>)
    ensures Keyless(a + b) == Keyless(a) + Keyless(b)
  {
    if a == [] {
      assert a + b == b;
    } else {
      assert (a + b)[1..] == a[1..] + b;
      KeylessOnlyConcat(a[1..], b);
    }
  }

  lemma KeyedConcat(a: seq<string>, b: seq<string>)
    ensures Keyed(a + b) == Keyed(a) + Keyed(b) && Keyless(a + b) == Keyless(a) + Keyless(b)
  {
    KeyedOnlyConcat(a, b);
    KeylessOnlyConcat(a, b);
  }

  lemma {:induction false} AllKeyless(ts: seq<string>)
    requires forall t :: t in ts ==> !IsKeyed(t)
    ensures Keyless(ts) == ts && Keyed(ts) == []
  {
    if ts == [] {
    } else {
      AllKeyless(ts[1..]);
      assert ts == [ts[0]] + ts[1..];
    }
  }

  lemma {:induction false} AllKeyed(ts: seq<string>)
    requires forall t :: t in ts ==> IsKeyed(t)
    ensures Keyed(ts) == ts && Keyless(ts) == []
  {
    if ts == [] {
    } else {
      AllKeyed(ts[1..]);
      assert ts == [ts[0]] + ts[1..];
    }
  }

  lemma {:induction false} JoinOfKeyless(ts: seq<string>)
    requires forall t :: t in ts ==> !IsKeyed(t)
    ensures !IsKeyed(Join(ts, ' '))
  {
    if ts == [] {
    } else {
      assert !IsKeyed(ts[0]);
      if |ts| > 1 { JoinOfKeyless(ts[1..]); }
    }
  }

  lemma {:induction false} PiecesOfKeyless(x: string)
    requires !IsKeyed(x)
    ensures forall t :: t in Split(x, ' ') ==> !IsKeyed(t)
  {
    if x == "" {
    } else {
      var rest := Split(x[1..], ' ');
      PiecesOfKeyless(x[1..]);
      assert rest[0] in rest;
      forall t | t in Split(x, ' ') ensures !IsKeyed(t) {
        if t != "" && t !in rest { assert t == [x[0]] + rest[0]; }
      }
    }
  }

  /** Keyed arguments are single tokens. */
  ghost predicate Plain(items: seq<string>) {
    forall x :: x in items && IsKeyed(x) ==> ' ' !in x
  }

  lemma {:induction false} TokensOfItems(items: seq<string>)
    requires Plain(items)
    ensures Keyed(SplitAll(items, ' ')) == Keyed(items)
    ensures Keyless(SplitAll(items, ' ')) == SplitAll(Keyless(items), ' ')
  {
    if items == [] {
    } else {
      var x, rest := items[0], items[1..];
      TokensOfItems(rest);
      KeyedConcat(Split(x, ' '), SplitAll(rest, ' '));
      FilterFirst(items);
      if IsKeyed(x) {
        SplitPlain(x, ' ');
        AllKeyed([x]);
      } else {
        PiecesOfKeyless(x);
        AllKeyless(Split(x, ' '));
        assert ([x] + Keyless(rest))[1..] == Keyless(rest);
      }
    }
  }

  lemma {:induction false} KeylessStaysSorted(items: seq<string>)
    requires IsSorted(items)
    ensures IsSorted(Keyless(items))
  {
    if items == [] {
    } else {
      KeylessStaysSorted(items[1..]);
      var rest := Keyless(items[1..]);
      forall j | 0 <= j < |rest| ensures StrLe(items[0], rest[j]) { assert rest[j] in items[1..]; }
      assert IsSorted([items[0]] + rest);
      FilterFirst(items);
    }
  }

  // ---------------------------------------------------------------- where keyed arguments stand

  /** Strictly before, in the order of the printer. */
  predicate Precedes(a: string, b: string) {
    !StrLe(b, a)
  }

  lemma OneWayOrTheOther(a: string, b: string)
    requires a != b
    ensures Precedes(a, b) <==> StrLe(a, b)
    ensures Precedes(a, b) <==> !Precedes(b, a)
  {
    StrLeTotal(a, b);
    if StrLe(a, b) && StrLe(b, a) { StrLeAntisymmetric(a, b); }
  }

  /** The keyed tokens in front of the first keyless one. */
  function Leading(ts: seq<string>): seq<string> {
    if ts == [] || !IsKeyed(ts[0]) then [] else [ts[0]] + Leading(ts[1..])
  }

  /** The keyed tokens behind the last keyless one. */
  function Trailing(ts: seq<string>): seq<string> {
    if ts == [] || !IsKeyed(ts[|ts| - 1]) then [] else Trailing(ts[..|ts| - 1]) + [ts[|ts| - 1]]
  }

  lemma LeadingBehindKeyed(first: string, rest: seq<string>)
    requires IsKeyed(first) && ' ' !in first
    ensures Leading(SplitAll([first] + rest, ' ')) == [first] + Leading(SplitAll(rest, ' '))
    ensures Keyless([first] + rest) == Keyless(rest)
  {
    assert ([first] + rest)[1..] == rest;
    SplitPlain(first, ' ');
    FilterFirst([first] + rest);
    assert ([first] + SplitAll(rest, ' '))[1..] == SplitAll(rest, ' ');
  }

  lemma LeadingBehindKeyless(first: string, rest: seq<string>)
    requires !IsKeyed(first)
    ensures Leading(SplitAll([first] + rest, ' ')) == []
    ensures Keyless([first] + rest) == [first] + Keyless(rest)
  {
    assert ([first] + rest)[1..] == rest;
    PiecesOfKeyless(first);
    FilterFirst([first] + rest);
    assert SplitAll([first] + rest, ' ')[0] == Split(first, ' ')[0];
  }

  lemma {:induction false} LeadingOfSorted(items: seq<string>, x: string)
    requires Plain(items) && IsSorted(items) && IsKeyed(x) && x in items && Keyless(items) != []
    ensures x in Leading(SplitAll(items, ' ')) <==> Precedes(x, Keyless(items)[0])
  {
    var first, rest := items[0], items[1..];
    assert items == [first] + rest;
    if IsKeyed(first) {
      LeadingBehindKeyed(first, rest);
      if x == first {
        assert Keyless(rest)[0] in rest;
        OneWayOrTheOther(x, Keyless(rest)[0]);
      } else {
        LeadingOfSorted(rest, x);
      }
    } else {
      LeadingBehindKeyless(first, rest);
      HeadIsLeast(items, x);
    }
  }

  lemma SplitLast(front: seq<string>, last: string)
    ensures SplitAll(front + [last], ' ') == SplitAll(front, ' ') + Split(last, ' ')
  {
    SplitAllConcat(front, [last], ' ');
    assert SplitAll([last], ' ') == Split(last, ' ');
  }

  lemma KeylessLast(front: seq<string>, last: string)
    ensures Keyless(front + [last]) == Keyless(front) + if IsKeyed(last) then [] else [last]
  {
    KeyedConcat(front, [last]);
    if IsKeyed(last) { AllKeyed([last]); } else { AllKeyless([last]); }
  }

  lemma TrailingBehindKeyed(front: seq<string>, last: string)
    requires IsKeyed(last) && ' ' !in last
    ensures Trailing(SplitAll(front + [last], ' ')) == Trailing(SplitAll(front, ' ')) + [last]
  {
    SplitLast(front, last);
    SplitPlain(last, ' ');
    var tokens := SplitAll(front, ' ') + [last];
    assert tokens[..|tokens| - 1] == SplitAll(front, ' ');
  }

  lemma TrailingBehindKeyless(front: seq<string>, last: string)
    requires !IsKeyed(last)
    ensures Trailing(SplitAll(front + [last], ' ')) == []
  {
    SplitLast(front, last);
    PiecesOfKeyless(last);
    var pieces := Split(last, ' ');
    var tokens := SplitAll(front, ' ') + pieces;
    assert tokens[|tokens| - 1] == pieces[|pieces| - 1] && pieces[|pieces| - 1] in pieces;
  }

  lemma FrontIsSorted(front: seq<string>, last: string)
    requires Plain(front + [last]) && IsSorted(front + [last])
    ensures Plain(front) && IsSorted(front)
  {
    var items := front + [last];
    forall i, j | 0 <= i < j < |front| ensures StrLe(front[i], front[j]) { assert StrLe(items[i], items[j]); }
    forall x | x in front ensures x in items { }
  }

  lemma LastIsGreatest(items: seq<string>, x: string)
    requires IsSorted(items) && x in items
    ensures StrLe(x, items[|items| - 1])
  {
    StrLeTotal(x, x);
  }

  lemma LastIsBehind(front: seq<string>, last: string, k: string)
    requires IsSorted(front + [last]) && k in front && k != last
    ensures Precedes(k, last)
  {
    LastIsGreatest(front + [last], k);
    OneWayOrTheOther(k, last);
  }

  lemma LastKeylessIsBehind(front: seq<string>, last: string)
    requires IsSorted(front + [last]) && IsKeyed(last) && Keyless(front) != []
    ensures Precedes(Keyless(front)[|Keyless(front)| - 1], last)
  {
    LastIsBehind(front, last, Keyless(front)[|Keyless(front)| - 1]);
  }

  lemma {:induction false} TrailingOfSorted(items: seq<string>, x: string)
    requires Plain(items) && IsSorted(items) && IsKeyed(x) && x in items && Keyless(items) != []
    ensures x in Trailing(SplitAll(items, ' ')) <==> Precedes(Keyless(items)[|Keyless(items)| - 1], x)
  {
    var front, last := items[..|items| - 1], items[|items| - 1];
    assert items == front + [last];
    KeylessLast(front, last);
    if IsKeyed(last) {
      TrailingBehindKeyed(front, last);
      FrontIsSorted(front, last);
      if x == last {
        LastKeylessIsBehind(front, last);
      } else {
        TrailingOfSorted(front, x);
      }
    } else {
      TrailingBehindKeyless(front, last);
      LastIsGreatest(items, x);
    }
  }

  // ---------------------------------------------------------------- keyless arguments apart or together

  /** No keyed argument stands between keyless ones, or would if they were one argument. */
  ghost predicate Together(keyed: seq<string>, keyless: seq<string>)
    requires keyless != []
  {
    forall x :: x in keyed ==>
      || Precedes(x, keyless[0])
      || (Precedes(keyless[|keyless| - 1], x) && Precedes(Join(keyless, ' '), x))
  }

  lemma KeylessOfPrinted(keyed: seq<string>, keyless: seq<string>)
    requires forall x :: x in keyed ==> IsKeyed(x) && ' ' !in x
    requires forall x :: x in keyless ==> !IsKeyed(x)
    requires IsSorted(keyless)
    ensures IsSorted(Sorted(keyed + keyless)) && Plain(Sorted(keyed + keyless))
    ensures Keyless(Sorted(keyed + keyless)) == keyless
    ensures forall x :: x in keyed ==> x in Sorted(keyed + keyless)
  {
    var items := Sorted(keyed + keyless);
    SortedSorts(keyed + keyless);
    forall x ensures x in items <==> x in keyed || x in keyless {
      assert x in items <==> x in multiset(items);
    }
    KeyedConcat(keyed, keyless);
    AllKeyed(keyed);
    AllKeyless(keyless);
    KeyedRearranged(items, keyed + keyless);
    KeylessStaysSorted(items);
    SortedIsUnique(Keyless(items), keyless);
  }

  /** Where the tokens come in the same order with the keyless arguments apart and joined, each keyed one
      stands clear of both. */
  lemma StandsClear(apart: seq<string>, joined: seq<string>, keyless: seq<string>, j: string, x: string)
    requires Plain(apart) && IsSorted(apart) && Keyless(apart) == keyless && keyless != []
    requires Plain(joined) && IsSorted(joined) && Keyless(joined) == [j] && !IsKeyed(j)
    requires SplitAll(apart, ' ') == SplitAll(joined, ' ')
    requires IsKeyed(x) && x in apart && x in joined
    ensures Precedes(x, keyless[0]) || (Precedes(keyless[|keyless| - 1], x) && Precedes(j, x))
  {
    LeadingOfSorted(apart, x);
    LeadingOfSorted(joined, x);
    TrailingOfSorted(apart, x);
    TrailingOfSorted(joined, x);
    OneWayOrTheOther(x, j);
  }

  lemma OnlyIfTogether(keyed: seq<string>, keyless: seq<string>)
    requires forall x :: x in keyed ==> IsKeyed(x) && ' ' !in x
    requires keyless != [] && forall x :: x in keyless ==> !IsKeyed(x)
    requires IsSorted(keyless)
    requires Join(Sorted(keyed + keyless), ' ') == Join(Sorted(keyed + [Join(keyless, ' ')]), ' ')
    ensures Together(keyed, keyless)
  {
    var j := Join(keyless, ' ');
    var apart, joined := Sorted(keyed + keyless), Sorted(keyed + [j]);
    JoinOfKeyless(keyless);
    KeylessOfPrinted(keyed, keyless);
    KeylessOfPrinted(keyed, [j]);
    SplitSorted(apart);
    SplitSorted(joined);
    forall x | x in keyed
      ensures Precedes(x, keyless[0]) || (Precedes(keyless[|keyless| - 1], x) && Precedes(j, x))
    {
      StandsClear(apart, joined, keyless, j, x);
    }
  }

  lemma SplitSorted(items: seq<string>)
    requires Keyless(items) != []
    ensures Split(Join(items, ' '), ' ') == SplitAll(items, ' ')
  {
    if items != [] { SplitJoin(items, ' '); }
  }

  /** The arguments that precede p, and the others. */
  function Below(xs: seq<string>, p: string): (r: seq<string>)
    ensures forall x :: x in r ==> x in xs && Precedes(x, p)
  {
    if xs == [] then [] else (if Precedes(xs[0], p) then [xs[0]] else []) + Below(xs[1..], p)
  }

  function NotBelow(xs: seq<string>, p: string): (r: seq<string>)
    ensures forall x :: x in r ==> x in xs && !Precedes(x, p)
  {
    if xs == [] then [] else (if Precedes(xs[0], p) then [] else [xs[0]]) + NotBelow(xs[1..], p)
  }

  lemma {:induction false} BelowAndNot(xs: seq<string>, p: string)
    ensures multiset(Below(xs, p)) + multiset(NotBelow(xs, p)) == multiset(xs)
  {
    if xs == [] {
    } else {
      BelowAndNot(xs[1..], p);
      assert xs == [xs[0]] + xs[1..];
    }
  }

  lemma {:induction false} PrefixIsLess(a: string, b: string)
    requires a <= b
    ensures StrLe(a, b)
  {
    if a == "" {
    } else {
      PrefixIsLess(a[1..], b[1..]);
    }
  }

  ghost predicate AllLe(a: seq<string>, b: seq<string>) {
    forall x, y :: x in a && y in b ==> StrLe(x, y)
  }

  lemma SortedInThree(a: seq<string>, b: seq<string>, c: seq<string>)
    requires IsSorted(a) && IsSorted(b) && IsSorted(c)
    requires AllLe(a, b) && AllLe(b, c) && AllLe(a, c)
    ensures IsSorted(a + b + c)
  {
    var s := a + b + c;
    forall i, j | 0 <= i < j < |s| ensures StrLe(s[i], s[j]) {
      assert s[i] == if i < |a| then a[i] else if i < |a| + |b| then b[i - |a|] else c[i - |a| - |b|];
      assert s[j] == if j < |a| then a[j] else if j < |a| + |b| then b[j - |a|] else c[j - |a| - |b|];
    }
  }

  lemma BelowIsBelow(xs: seq<string>, p: string, ys: seq<string>)
    requires forall y :: y in ys ==> StrLe(p, y)
    ensures AllLe(Sorted(Below(xs, p)), ys)
  {
    SortedSorts(Below(xs, p));
    forall x, y | x in Sorted(Below(xs, p)) && y in ys ensures StrLe(x, y) {
      assert x in multiset(Sorted(Below(xs, p)));
      assert x in multiset(Below(xs, p));
      assert x in Below(xs, p);
      StrLeTotal(x, p);
      StrLeTransitive(x, p, y);
    }
  }

  lemma NotBelowIsAbove(xs: seq<string>, p: string, y: string)
    requires y in Sorted(NotBelow(xs, p))
    ensures y in NotBelow(xs, p) && StrLe(p, y)
  {
    SortedSorts(NotBelow(xs, p));
    assert y in multiset(Sorted(NotBelow(xs, p)));
    assert y in multiset(NotBelow(xs, p));
  }

  /** Arguments around a middle: sorted, they are the lower ones, the middle and the upper ones. */
  lemma SortedAround(xs: seq<string>, p: string, middle: seq<string>)
    requires IsSorted(middle)
    requires forall y :: y in middle ==> StrLe(p, y)
    requires AllLe(middle, NotBelow(xs, p))
    ensures Sorted(xs + middle) == Sorted(Below(xs, p)) + middle + Sorted(NotBelow(xs, p))
  {
    var low, high := Sorted(Below(xs, p)), Sorted(NotBelow(xs, p));
    forall y | y in high ensures y in NotBelow(xs, p) && StrLe(p, y) { NotBelowIsAbove(xs, p, y); }
    BelowIsBelow(xs, p, middle);
    BelowIsBelow(xs, p, high);
    SortedSorts(Below(xs, p));
    SortedSorts(NotBelow(xs, p));
    assert AllLe(middle, high);
    SortedInThree(low, middle, high);
    BelowAndNot(xs, p);
    SortedSorts(xs + middle);
    SortedIsUnique(Sorted(xs + middle), low + middle + high);
  }

  lemma {:induction false} JoinOfJoin(a: seq<string>, k: seq<string>, b: seq<string>)
    requires k != []
    ensures Join(a + k + b, ' ') == Join(a + [Join(k, ' ')] + b, ' ')
    decreases |a|, |k|
  {
    if a != [] {
      assert (a + k + b)[1..] == a[1..] + k + b;
      assert (a + [Join(k, ' ')] + b)[1..] == a[1..] + [Join(k, ' ')] + b;
      JoinOfJoin(a[1..], k, b);
    } else if |k| == 1 {
      assert a + k + b == a + [Join(k, ' ')] + b;
    } else {
      JoinOfJoin([], k[1..], b);
      assert ([] + k + b)[1..] == [] + k[1..] + b;
      JoinPrepends(k[0], Join(k[1..], ' '), b);
    }
  }

  lemma JoinPrepends(x: string, y: string, b: seq<string>)
    ensures x + " " + Join([] + [y] + b, ' ') == Join([] + [x + " " + y] + b, ' ')
  {
    assert ([] + [y] + b)[1..] == b && ([] + [x + " " + y] + b)[1..] == b;
    if b != [] {
      assert x + " " + (y + " " + Join(b, ' ')) == x + " " + y + " " + Join(b, ' ');
    }
  }

  lemma IfTogether(keyed: seq<string>, keyless: seq<string>)
    requires keyless != [] && IsSorted(keyless) && Together(keyed, keyless)
    ensures Join(Sorted(keyed + keyless), ' ') == Join(Sorted(keyed + [Join(keyless, ' ')]), ' ')
  {
    var p, last, j := keyless[0], keyless[|keyless| - 1], Join(keyless, ' ');
    assert keyless[0] <= Join(keyless, ' ');
    PrefixIsLess(p, j);
    StrLeTotal(p, p);
    StrLeTotal(last, last);
    forall y, x | y in keyless && x in NotBelow(keyed, p) ensures StrLe(y, x) {
      assert StrLe(y, last) && Precedes(last, x);
      StrLeTotal(last, x);
      StrLeTransitive(y, last, x);
    }
    forall x | x in NotBelow(keyed, p) ensures StrLe(j, x) {
      assert Precedes(j, x);
      StrLeTotal(j, x);
    }
    SortedAround(keyed, p, keyless);
    SortedAround(keyed, p, [j]);
    JoinOfJoin(Sorted(Below(keyed, p)), keyless, Sorted(NotBelow(keyed, p)));
  }

  // ---------------------------------------------------------------- the second pass

  /** The keyed and the keyless arguments the first pass prints, the latter in their printed order. */
  function KeyedPrinted(s: string): seq<string> { Keyed(Listing(Tokens(s))) }

  function KeylessPrinted(s: string): seq<string> { Sorted(Keyless(Listing(Tokens(s)))) }

  lemma ListingIsPlain(ts: seq<string>)
    requires forall t :: t in ts ==> ' ' !in t
    ensures Plain(Listing(ts))
  {
    forall x | x in Listing(ts) && IsKeyed(x) ensures ' ' !in x {
      if x in ShownAll(Keyed(ts)) {
        var i :| 0 <= i < |Keyed(ts)| && ShownAll(Keyed(ts))[i] == x;
        assert Keyed(ts)[i] in ts;
      } else {
        JoinOfKeyless(Keyless(ts));
      }
    }
  }

  lemma PartsOfListing(s: string)
    ensures multiset(Listing(Tokens(s))) == multiset(KeyedPrinted(s) + KeylessPrinted(s))
    ensures IsSorted(KeylessPrinted(s))
    ensures forall x :: x in KeyedPrinted(s) ==> IsKeyed(x) && ' ' !in x
    ensures forall x :: x in KeylessPrinted(s) ==> !IsKeyed(x)
  {
    var items := Listing(Tokens(s));
    ListingIsPlain(Tokens(s));
    KeyedAndKeyless(items);
    SortedSorts(Keyless(items));
    forall x | x in KeylessPrinted(s) ensures !IsKeyed(x) { assert x in multiset(KeylessPrinted(s)); }
  }

  lemma FirstPass(s: string)
    requires s != ""
    ensures NormalForm(s) == Join(Sorted(KeyedPrinted(s) + KeylessPrinted(s)), ' ')
    ensures Tokens(NormalForm(s)) == SplitAll(Sorted(KeyedPrinted(s) + KeylessPrinted(s)), ' ')
  {
    NormalFormTokens(s);
    PartsOfListing(s);
    SortedSorts(KeyedPrinted(s) + KeylessPrinted(s));
    SortedIsUnique(Sorted(KeyedPrinted(s) + KeylessPrinted(s)), SortedBag(multiset(Listing(Tokens(s)))));
  }

  lemma TokensAfterFirstPass(s: string)
    requires s != ""
    ensures multiset(Keyed(Tokens(NormalForm(s)))) == multiset(KeyedPrinted(s))
    ensures Keyless(Tokens(NormalForm(s))) == SplitAll(KeylessPrinted(s), ' ')
  {
    var keyed, keyless := KeyedPrinted(s), KeylessPrinted(s);
    PartsOfListing(s);
    FirstPass(s);
    KeylessOfPrinted(keyed, keyless);
    TokensOfItems(Sorted(keyed + keyless));
    SortedSorts(keyed + keyless);
    KeyedRearranged(Sorted(keyed + keyless), keyed + keyless);
    KeyedConcat(keyed, keyless);
    AllKeyed(keyed);
    AllKeyless(keyless);
  }

  lemma KeylessPrintedAgain(s: string)
    requires s != ""
    ensures KeylessArgument(Tokens(NormalForm(s))) ==
            if KeylessPrinted(s) == [] then [] else [Join(KeylessPrinted(s), ' ')]
  {
    TokensAfterFirstPass(s);
    var keyless := KeylessPrinted(s);
    if keyless != [] {
      SplitJoin(keyless, ' ');
      JoinSplit(Join(keyless, ' '), ' ');
    }
  }

  /** What the second pass prints. */
  function PrintedAgain(s: string): seq<string> {
    KeyedPrinted(s) + if KeylessPrinted(s) == [] then [] else [Join(KeylessPrinted(s), ' ')]
  }

  lemma ShownKeysStayFree(s: string)
    requires NoReservedKey(ShownAll(Tokens(s)))
    ensures NoReservedKey(Tokens(NormalForm(s)))
  {
    PrintedTokens(s);
    forall t | t in Tokens(NormalForm(s)) ensures !UsesReservedKey(t) {
      assert t in multiset(Tokens(NormalForm(s)));
      assert t in multiset(ShownAll(Tokens(s)));
    }
  }

  lemma SecondListing(s: string)
    requires s != "" && NoReservedKey(ShownAll(Tokens(s)))
    ensures multiset(Listing(Tokens(NormalForm(s)))) == multiset(PrintedAgain(s))
  {
    ShownKeysStayFree(s);
    assert ShownAll(Keyed(Tokens(NormalForm(s)))) == Keyed(Tokens(NormalForm(s)));
    TokensAfterFirstPass(s);
    KeylessPrintedAgain(s);
  }

  /** One empty argument and no other. */
  ghost predicate PrintsNothing(s: string) {
    multiset(ShownAll(Tokens(s))) == multiset{""}
  }

  lemma EmptyLine(s: string)
    ensures PrintsNothing(s) <==> s == "" || NormalForm(s) == ""
  {
    PrintedTokens(s);
    assert Tokens("") == [""];
    if PrintsNothing(s) {
      var ts := Tokens(NormalForm(s));
      assert |ts| == |multiset(ts)| == 1 && ts[0] in multiset(ts);
      JoinSplit(NormalForm(s), ' ');
    }
  }

  lemma SecondPass(s: string)
    requires !PrintsNothing(s) && NoReservedKey(ShownAll(Tokens(s)))
    ensures NormalForm(NormalForm(s)) == Join(Sorted(PrintedAgain(s)), ' ')
  {
    EmptyLine(s);
    SecondListing(s);
    NormalFormTokens(NormalForm(s));
    SortedSorts(PrintedAgain(s));
    SortedIsUnique(Sorted(PrintedAgain(s)), SortedBag(multiset(Listing(Tokens(NormalForm(s))))));
  }

  // ---------------------------------------------------------------- the exact condition

  /** No token as printed uses the reserved key, and no keyed argument comes between keyless ones. */
  ghost predicate SettlesAtOnce(s: string) {
    && NoReservedKey(ShownAll(Tokens(s)))
    && (KeylessPrinted(s) != [] ==> Together(KeyedPrinted(s), KeylessPrinted(s)))
  }

  /** A line is stable after one pass only if no shown token uses the reserved key, which "_=_=y", shown
      as "_=y", does. */
  lemma StableOnlyIfShownKeysAreFree(s: string)
    requires NormalForm(NormalForm(s)) == NormalForm(s)
    ensures NoReservedKey(ShownAll(Tokens(s)))
  {
    PrintedTokens(s);
    TokensKeptIffNoReservedKey(NormalForm(s));
    forall t | t in ShownAll(Tokens(s)) ensures !UsesReservedKey(t) {
      assert t in multiset(ShownAll(Tokens(s)));
      assert t in multiset(Tokens(NormalForm(s)));
    }
  }

  lemma EmptyLineSettles(s: string)
    requires PrintsNothing(s)
    ensures NormalForm(NormalForm(s)) == NormalForm(s) && SettlesAtOnce(s)
  {
    EmptyLine(s);
    forall t | t in ShownAll(Tokens(s)) ensures !UsesReservedKey(t) { assert t in multiset(ShownAll(Tokens(s))); }
    NothingKeyed(s);
  }

  lemma NothingKeyed(s: string)
    requires multiset(ShownAll(Tokens(s))) == multiset{""}
    ensures KeyedPrinted(s) == []
  {
    PartsOfListing(s);
    TokensOfListing(Tokens(s));
    ListingIsPlain(Tokens(s));
    TokensOfItems(Listing(Tokens(s)));
    forall t: string ensures multiset(KeyedPrinted(s))[t] == 0 {
      KeyedMultiplicity(SplitAll(Listing(Tokens(s)), ' '), t);
    }
    assert multiset(KeyedPrinted(s)) == multiset{};
    assert |KeyedPrinted(s)| == |multiset(KeyedPrinted(s))|;
  }

  /** A second pass changes nothing if and only if the line settles at once. */
  lemma StableIff(s: string)
    ensures NormalForm(NormalForm(s)) == NormalForm(s) <==> SettlesAtOnce(s)
  {
    if PrintsNothing(s) {
      EmptyLineSettles(s);
    } else {
      if NormalForm(NormalForm(s)) == NormalForm(s) { StableOnlyIfShownKeysAreFree(s); }
      if NoReservedKey(ShownAll(Tokens(s))) {
        StableIffTogether(s);
      }
    }
  }

  lemma StableIffTogether(s: string)
    requires !PrintsNothing(s) && NoReservedKey(ShownAll(Tokens(s)))
    ensures NormalForm(NormalForm(s)) == NormalForm(s)
            <==> KeylessPrinted(s) != [] ==> Together(KeyedPrinted(s), KeylessPrinted(s))
  {
    var keyed, keyless := KeyedPrinted(s), KeylessPrinted(s);
    EmptyLine(s);
    FirstPass(s);
    SecondPass(s);
    PartsOfListing(s);
    if keyless != [] {
      if Together(keyed, keyless) { IfTogether(keyed, keyless); }
      if NormalForm(NormalForm(s)) == NormalForm(s) { OnlyIfTogether(keyed, keyless); }
    }
  }

  /** In particular every line without the reserved key is stable after one pass. */
  lemma NormalFormIsStable(s: string)
    requires NoReservedKey(Tokens(s))
    ensures NormalForm(NormalForm(s)) == NormalForm(s)
  {
    var ts := Tokens(s);
    assert ShownAll(ts) == ts && ShownAll(Keyed(ts)) == Keyed(ts);
    KeyedConcat(Keyed(ts), KeylessArgument(ts));
    AllKeyed(Keyed(ts));
    JoinOfKeyless(Keyless(ts));
    AllKeyless(KeylessArgument(ts));
    assert Keyless(Listing(ts)) == KeylessArgument(ts);
    PartsOfListing(s);
    if KeylessArgument(ts) != [] {
      var j := Join(Keyless(ts), ' ');
      assert KeylessPrinted(s) == [j];
      forall x | x in KeyedPrinted(s) ensures Precedes(x, j) || Precedes(j, x) { OneWayOrTheOther(x, j); }
    }
    StableIff(s);
  }

  /** Lines that do not settle, though no token as printed uses the reserved key: the first pass prints
      x, y and z in this order, the second x and z together. */
  lemma UnsettledLines(x: string, y: string, z: string)
    requires !IsKeyed(x) && IsKeyed(y) && KeyOf(y) != KEYLESS && !IsKeyed(z)
    requires ' ' !in x && ' ' !in y && ' ' !in z
    requires Precedes(x, y) && Precedes(y, z)
    ensures var s := ("_=" + x) + " " + (y + " " + z);
            NoReservedKey(ShownAll(Tokens(s))) && NormalForm(NormalForm(s)) != NormalForm(s)
  {
    var s := ("_=" + x) + " " + (y + " " + z);
    PrintedOfThree(x, y, z, s);
    StableIff(s);
    ApartWithKeyedBetween(x, y, z);
  }

  lemma PrintedOfThree(x: string, y: string, z: string, s: string)
    requires !IsKeyed(x) && IsKeyed(y) && KeyOf(y) != KEYLESS && !IsKeyed(z)
    requires ' ' !in x && ' ' !in y && ' ' !in z
    requires Precedes(x, y) && Precedes(y, z)
    requires s == ("_=" + x) + " " + (y + " " + z)
    ensures KeyedPrinted(s) == [y] && KeylessPrinted(s) == [x, z]
    ensures NoReservedKey(ShownAll(Tokens(s)))
  {
    var t := "_=" + x;
    TokensOfThree(t, y, z);
    ReservedTokenShows(x);
    ListingOfThree(t, y, z);
    PartsOfThree(x, y, z);
    ShownOfThree(t, y, z);
  }

  lemma ShownOfThree(t: string, y: string, z: string)
    requires KeyOf(y) != KEYLESS && !IsKeyed(z) && !IsKeyed(Shown(t))
    ensures NoReservedKey(ShownAll([t, y, z]))
  {
    assert ShownAll([t, y, z]) == [Shown(t), y, z];
  }

  lemma ApartWithKeyedBetween(x: string, y: string, z: string)
    requires Precedes(x, y) && Precedes(y, z)
    ensures !Together([y], [x, z])
  {
    assert y in [y];
    StrLeTotal(x, y);
    StrLeTotal(y, z);
  }

  lemma ReservedTokenShows(x: string)
    ensures IsKeyed("_=" + x) && Shown("_=" + x) == x
  {
    var t := "_=" + x;
    assert t[0] == '_' && t[1] == '=' && t[1..][0] == '=';
    assert KeyOf(t[1..]) == "";
    assert KeyOf(t) == "_";
    assert ValueOf(t) == x;
  }

  lemma TokensOfThree(t: string, y: string, z: string)
    requires ' ' !in t && ' ' !in y && ' ' !in z
    ensures Tokens(t + " " + (y + " " + z)) == [t, y, z]
  {
    SplitAtSeparator(t, y + " " + z, ' ');
    SplitAtSeparator(y, z, ' ');
    SplitPlain(t, ' ');
    SplitPlain(y, ' ');
    SplitPlain(z, ' ');
  }

  lemma ListingOfThree(t: string, y: string, z: string)
    requires IsKeyed(t) && IsKeyed(y) && KeyOf(y) != KEYLESS && !IsKeyed(z)
    ensures Listing([t, y, z]) == [Shown(t), y, z]
  {
    assert [t, y, z] == [t, y] + [z];
    assert Keyed([t, y, z]) == [t, y] && Keyless([t, y, z]) == [z] by {
      KeyedConcat([t, y], [z]);
      AllKeyed([t, y]);
      AllKeyless([z]);
    }
    assert ShownAll([t, y]) == [Shown(t), y];
    assert KeylessArgument([t, y, z]) == [z];
  }

  lemma PartsOfThree(x: string, y: string, z: string)
    requires !IsKeyed(x) && IsKeyed(y) && !IsKeyed(z) && Precedes(x, y) && Precedes(y, z)
    ensures Keyed([x, y, z]) == [y] && Sorted(Keyless([x, y, z])) == [x, z]
  {
    KeyedConcat([x], [y]);
    KeyedConcat([x] + [y], [z]);
    AllKeyless([x]);
    AllKeyed([y]);
    AllKeyless([z]);
    assert [x, y, z] == [x] + [y] + [z] && [x] + [z] == [x, z];
    TwoInOrder(x, y, z);
  }

  lemma TwoInOrder(x: string, y: string, z: string)
    requires Precedes(x, y) && Precedes(y, z)
    ensures Sorted([x, z]) == [x, z]
  {
    StrLeTotal(x, y);
    StrLeTotal(y, z);
    StrLeTransitive(x, y, z);
    SortIsIdempotent([x, z]);
  }

  /** One of them: "_=a b=1 z" becomes "a b=1 z", and that "a z b=1". */
  lemma UnsettledLine(x: string, y: string, z: string)
    requires x == "a" && y == "b=1" && z == "z"
    ensures var s := ("_=" + x) + " " + (y + " " + z);
            s == "_=a b=1 z" && NormalForm(NormalForm(s)) != NormalForm(s)
  {
    assert y[0] != '=' && y[1] == '=';
    assert KeyOf(y) == "b";
    UnsettledLines(x, y, z);
    UnsettledText(x, y, z);
  }

  lemma UnsettledText(x: string, y: string, z: string)
    requires x == "a" && y == "b=1" && z == "z"
    ensures ("_=" + x) + " " + (y + " " + z) == "_=a b=1 z"
  {
    var s, line := ("_=" + x) + " " + (y + " " + z), "_=a b=1 z";
    assert |s| == |line| == 9;
    forall i | 0 <= i < 9 ensures s[i] == line[i] {
      assert i < 3 ==> s[i] == ("_=" + x)[i] && line[i] == ("_=" + x)[i];
      assert i > 3 ==> s[i] == (y + " " + z)[i - 4];
      if i == 4 || i == 5 || i == 6 { assert s[i] == y[i - 4] == line[i]; }
    }
  }
}
