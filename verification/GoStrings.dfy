/** The three facts about Go's strings the provider relies on: sort.Strings, strings.Split and strings.Join. */
module GoStrings {

  lemma Associates<T>(a: seq<T>, b: seq<T>, c: seq<T>)
    ensures a + b + c == a + (b + c)
  {
  }

  /** Lexicographic order, the one sort.Strings sorts by. */
  predicate StrLe(a: string, b: string) {
    |a| == 0 || (|b| > 0 && (a[0] < b[0] || (a[0] == b[0] && StrLe(a[1..], b[1..]))))
  }

  lemma {:induction false} StrLeTotal(a: string, b: string)
    ensures StrLe(a, b) || StrLe(b, a)
  {
    if |a| > 0 && |b| > 0 && a[0] == b[0] {
      StrLeTotal(a[1..], b[1..]);
    }
  }

  lemma {:induction false} StrLeAntisymmetric(a: string, b: string)
    requires StrLe(a, b) && StrLe(b, a)
    ensures a == b
  {
    if |a| > 0 {
      StrLeAntisymmetric(a[1..], b[1..]);
      assert a == [a[0]] + a[1..] && b == [b[0]] + b[1..];
    }
  }

  lemma {:induction false} StrLeTransitive(a: string, b: string, c: string)
    requires StrLe(a, b) && StrLe(b, c)
    ensures StrLe(a, c)
  {
    if |a| > 0 && a[0] == b[0] == c[0] {
      StrLeTransitive(a[1..], b[1..], c[1..]);
    }
  }

  /** The order of sort.Strings, told by the first difference: a prefix comes first, else the lesser
      character decides, as a number. */
  ghost predicate Bytewise(a: string, b: string) {
    a <= b || exists k: nat :: DiffersAt(a, b, k) && a[k] as int < b[k] as int
  }

  ghost predicate DiffersAt(a: string, b: string, k: nat) {
    k < |a| && k < |b| && a[..k] == b[..k] && a[k] != b[k]
  }

  lemma {:induction false} FirstDifferenceDecides(p: string, c: char, d: char, x: string, y: string)
    requires c != d
    ensures StrLe(p + [c] + x, p + [d] + y) <==> c as int < d as int
  {
    if p == "" {
      assert p + [c] + x == [c] + x && p + [d] + y == [d] + y;
    } else {
      assert (p + [c] + x)[1..] == p[1..] + [c] + x && (p + [d] + y)[1..] == p[1..] + [d] + y;
      FirstDifferenceDecides(p[1..], c, d, x, y);
    }
  }

  lemma {:induction false} PrefixComesFirst(p: string, x: string)
    ensures StrLe(p, p + x)
    ensures StrLe(p + x, p) <==> x == ""
  {
    if p == "" {
      assert p + x == x;
    } else {
      assert (p + x)[1..] == p[1..] + x;
      PrefixComesFirst(p[1..], x);
    }
  }

  lemma {:induction false} FindDifference(a: string, b: string) returns (k: nat)
    requires !(a <= b) && !(b <= a)
    ensures DiffersAt(a, b, k)
  {
    if a[0] != b[0] {
      k := 0;
    } else {
      assert a == [a[0]] + a[1..] && b == [b[0]] + b[1..];
      k := FindDifference(a[1..], b[1..]);
      k := k + 1;
      assert a[..k] == [a[0]] + a[1..][..k - 1] && b[..k] == [b[0]] + b[1..][..k - 1];
    }
  }

  lemma AtDifference(a: string, b: string, k: nat)
    requires DiffersAt(a, b, k)
    ensures StrLe(a, b) <==> a[k] as int < b[k] as int
    ensures !(a <= b)
  {
    assert a == a[..k] + [a[k]] + a[k + 1..] && b == a[..k] + [b[k]] + b[k + 1..];
    FirstDifferenceDecides(a[..k], a[k], b[k], a[k + 1..], b[k + 1..]);
  }

  lemma StrLeIsBytewise(a: string, b: string)
    ensures StrLe(a, b) <==> Bytewise(a, b)
  {
    if a <= b {
      PrefixComesFirst(a, b[|a|..]);
      assert b == a + b[|a|..];
    } else if b <= a {
      PrefixComesFirst(b, a[|b|..]);
      assert a == b + a[|b|..];
    } else {
      var k := FindDifference(a, b);
      AtDifference(a, b, k);
      forall l: nat | DiffersAt(a, b, l) ensures StrLe(a, b) <==> a[l] as int < b[l] as int { AtDifference(a, b, l); }
    }
  }

  ghost predicate InOrder(s: seq<string>) {
    forall i, j :: 0 <= i < j < |s| ==> Bytewise(s[i], s[j])
  }

  lemma SortedIsInOrder(s: seq<string>)
    ensures InOrder(Sorted(s)) && multiset(Sorted(s)) == multiset(s)
  {
    SortedSorts(s);
    forall i, j | 0 <= i < j < |Sorted(s)| ensures Bytewise(Sorted(s)[i], Sorted(s)[j]) {
      StrLeIsBytewise(Sorted(s)[i], Sorted(s)[j]);
    }
  }

  ghost predicate IsSorted(s: seq<string>) {
    forall i, j :: 0 <= i < j < |s| ==> StrLe(s[i], s[j])
  }

  function Insert(x: string, s: seq<string>): seq<string> {
    if s == [] || StrLe(x, s[0]) then [x] + s else [s[0]] + Insert(x, s[1..])
  }

  lemma {:induction false} InsertAddsOne(x: string, s: seq<string>)
    ensures multiset(Insert(x, s)) == multiset(s) + multiset{x}
  {
    if s == [] {
    } else {
      assert s == [s[0]] + s[1..];
      InsertAddsOne(x, s[1..]);
    }
  }

  lemma {:induction false} InsertKeepsSorted(x: string, s: seq<string>)
    requires IsSorted(s)
    ensures IsSorted(Insert(x, s))
  {
    if s == [] {
    } else {
      if StrLe(x, s[0]) {
        forall j | 0 < j < |s| ensures StrLe(x, s[j]) { StrLeTransitive(x, s[0], s[j]); }
      } else {
        InsertKeepsSorted(x, s[1..]);
        var rest := Insert(x, s[1..]);
        forall j | 0 <= j < |rest| ensures StrLe(s[0], rest[j]) { InsertedIsAbove(x, s, rest[j]); }
      }
    }
  }

  lemma InsertedIsAbove(x: string, s: seq<string>, y: string)
    requires s != [] && IsSorted(s) && !StrLe(x, s[0]) && y in Insert(x, s[1..])
    ensures StrLe(s[0], y)
  {
    StrLeTotal(x, s[0]);
    InsertAddsOne(x, s[1..]);
    assert y in multiset(Insert(x, s[1..]));
    if y != x {
      assert y in multiset(s[1..]);
      var j :| 0 <= j < |s[1..]| && s[1..][j] == y;
      assert s[j + 1] == y;
    }
  }

  /** sort.Strings: the sorted rearrangement, which SortedIsUnique shows there is only one of. */
  function Sorted(s: seq<string>): seq<string> {
    if s == [] then [] else Insert(s[0], Sorted(s[1..]))
  }

  lemma {:induction false} SortedSorts(s: seq<string>)
    ensures IsSorted(Sorted(s))
    ensures multiset(Sorted(s)) == multiset(s)
  {
    if s == [] {
    } else {
      assert s == [s[0]] + s[1..];
      SortedSorts(s[1..]);
      InsertAddsOne(s[0], Sorted(s[1..]));
      InsertKeepsSorted(s[0], Sorted(s[1..]));
    }
  }

  lemma HeadIsLeast(a: seq<string>, x: string)
    requires IsSorted(a) && x in a
    ensures StrLe(a[0], x)
  {
    StrLeTotal(x, x);
  }

  lemma TailBag(a: seq<string>)
    requires a != []
    ensures multiset(a[1..]) == multiset(a) - multiset{a[0]}
  {
    assert a == [a[0]] + a[1..];
  }

  lemma SameLeast(a: seq<string>, b: seq<string>)
    requires IsSorted(a) && IsSorted(b) && multiset(a) == multiset(b) && a != [] && b != []
    ensures a[0] == b[0]
  {
    assert a[0] in multiset(b) && b[0] in multiset(a);
    HeadIsLeast(b, a[0]);
    HeadIsLeast(a, b[0]);
    StrLeAntisymmetric(a[0], b[0]);
  }

  lemma {:induction false} SortedIsUnique(a: seq<string>, b: seq<string>)
    requires IsSorted(a) && IsSorted(b)
    requires multiset(a) == multiset(b)
    ensures a == b
  {
    assert |a| == |multiset(a)| == |multiset(b)| == |b|;
    if a == [] {
    } else {
      SameLeast(a, b);
      TailBag(a);
      TailBag(b);
      SortedIsUnique(a[1..], b[1..]);
      assert a == [a[0]] + a[1..] && b == [b[0]] + b[1..];
    }
  }

  lemma SortForgetsOrder(a: seq<string>, b: seq<string>)
    requires multiset(a) == multiset(b)
    ensures Sorted(a) == Sorted(b)
  {
    SortedSorts(a);
    SortedSorts(b);
    SortedIsUnique(Sorted(a), Sorted(b));
  }

  /** The sorted listing of a collection with repetitions. */
  ghost function SortedBag(b: multiset<string>): (r: seq<string>)
    ensures IsSorted(r) && multiset(r) == b
    decreases |b|
  {
    if b == multiset{} then [] else
      var x :| x in b;
      InsertAddsOne(x, SortedBag(b - multiset{x}));
      InsertKeepsSorted(x, SortedBag(b - multiset{x}));
      Insert(x, SortedBag(b - multiset{x}))
  }

  lemma SortIsIdempotent(a: seq<string>)
    requires IsSorted(a)
    ensures Sorted(a) == a
  {
    SortedSorts(a);
    SortedIsUnique(Sorted(a), a);
  }

  /** strings.Split with a one-character separator: always at least one piece. */
  function Split(s: string, sep: char): (r: seq<string>)
    ensures |r| > 0
    ensures forall t :: t in r ==> sep !in t
  {
    if s == "" then [""]
    else
      var rest := Split(s[1..], sep);
      if s[0] == sep then [""] + rest else [[s[0]] + rest[0]] + rest[1..]
  }

  /** strings.Join. */
  function Join(ts: seq<string>, sep: char): string {
    if |ts| == 0 then "" else if |ts| == 1 then ts[0] else ts[0] + [sep] + Join(ts[1..], sep)
  }

  lemma {:induction false} JoinSplit(s: string, sep: char)
    ensures Join(Split(s, sep), sep) == s
  {
    if s == "" {
    } else {
      JoinSplit(s[1..], sep);
      var rest, all := Split(s[1..], sep), Split(s, sep);
      assert s == [s[0]] + s[1..];
      if s[0] == sep {
        assert all[1..] == rest;
      } else if |rest| > 1 {
        assert all[1..] == rest[1..];
        assert [s[0]] + (rest[0] + [sep] + Join(rest[1..], sep)) == ([s[0]] + rest[0]) + [sep] + Join(rest[1..], sep);
      }
    }
  }

  lemma {:induction false} SplitAtSeparator(a: string, b: string, sep: char)
    ensures Split(a + [sep] + b, sep) == Split(a, sep) + Split(b, sep)
  {
    var s := a + [sep] + b;
    if a == "" {
      assert s[1..] == b;
    } else {
      assert s[1..] == a[1..] + [sep] + b;
      SplitAtSeparator(a[1..], b, sep);
    }
  }

  lemma {:induction false} SplitPlain(s: string, sep: char)
    requires sep !in s
    ensures Split(s, sep) == [s]
  {
    if s == "" {
    } else {
      SplitPlain(s[1..], sep);
      assert s == [s[0]] + s[1..];
    }
  }

  /** The pieces of each string, one after the other. */
  function SplitAll(ts: seq<string>, sep: char): seq<string> {
    if ts == [] then [] else Split(ts[0], sep) + SplitAll(ts[1..], sep)
  }

  lemma {:induction false} SplitJoin(ts: seq<string>, sep: char)
    requires |ts| > 0
    ensures Split(Join(ts, sep), sep) == SplitAll(ts, sep)
  {
    if |ts| == 1 {
      assert SplitAll(ts[1..], sep) == [];
    } else {
      SplitAtSeparator(ts[0], Join(ts[1..], sep), sep);
      SplitJoin(ts[1..], sep);
    }
  }

  lemma {:induction false} SplitAllPlain(ts: seq<string>, sep: char)
    requires forall t :: t in ts ==> sep !in t
    ensures SplitAll(ts, sep) == ts
  {
    if ts == [] {
    } else {
      SplitPlain(ts[0], sep);
      SplitAllPlain(ts[1..], sep);
      assert ts == [ts[0]] + ts[1..];
    }
  }

  lemma {:induction false} SplitAllConcat(a: seq<string>, b: seq<string>, sep: char)
    ensures SplitAll(a + b, sep) == SplitAll(a, sep) + SplitAll(b, sep)
  {
    if a == [] {
      assert a + b == b;
    } else {
      assert (a + b)[1..] == a[1..] + b;
      SplitAllConcat(a[1..], b, sep);
    }
  }
}
