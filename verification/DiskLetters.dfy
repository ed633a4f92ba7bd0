/** Disk letters: the suffix of a block-device name ("vda", "vdb", ..., "vdz", "vdaa", ...). */
module DiskLetters {

  const ALPHABET := 26

  /** The r-th lower-case letter. */
  function Letter(r: nat): (c: char)
    requires r < ALPHABET
    ensures 'a' <= c <= 'z'
  {
    ('a' as int + r) as char
  }

  /** A nonempty word over the lower-case letters. */
  predicate IsWord(s: string) {
    |s| > 0 && forall k :: 0 <= k < |s| ==> 'a' <= s[k] <= 'z'
  }

  /** Bijective base 26, most significant letter first; the recursive call is on a smaller index
      because i / 26 - 1 < i. */
  function DiskLetterForIndex(i: nat): (s: string)
    ensures IsWord(s)
  {
    var q, letter := i / ALPHABET, Letter(i % ALPHABET);
    if q == 0 then [letter] else DiskLetterForIndex(q - 1) + [letter]
  }

  /** The decoder: position of a word in the length-then-alphabetical enumeration of all words. */
  function IndexForDiskLetter(s: string): nat
    requires IsWord(s)
  {
    var last := |s| - 1;
    var digit := s[last] as int - 'a' as int;
    if last == 0 then digit else (IndexForDiskLetter(s[..last]) + 1) * ALPHABET + digit
  }

  /** Shorter words first, words of one length alphabetically. */
  ghost predicate ComesBefore(s: string, t: string) {
    || |s| < |t|
    || (|s| == |t| && exists k: nat :: FirstDifference(s, t, k))
  }

  ghost predicate FirstDifference(s: string, t: string, k: nat) {
    k < |s| && k < |t| && s[..k] == t[..k] && s[k] < t[k]
  }

  lemma {:induction false} DecodeEncode(i: nat)
    ensures IndexForDiskLetter(DiskLetterForIndex(i)) == i
  {
    var q := i / ALPHABET;
    if q > 0 {
      DecodeEncode(q - 1);
      var s := DiskLetterForIndex(i);
      assert s[..|s| - 1] == DiskLetterForIndex(q - 1);
    }
  }

  lemma {:induction false} EncodeDecode(s: string)
    requires IsWord(s)
    ensures DiskLetterForIndex(IndexForDiskLetter(s)) == s
  {
    var last := |s| - 1;
    var digit := s[last] as int - 'a' as int;
    assert s == s[..last] + [s[last]];
    if last > 0 {
      var high := IndexForDiskLetter(s[..last]);
      var i := (high + 1) * ALPHABET + digit;
      assert i / ALPHABET == high + 1 && i % ALPHABET == digit;
      EncodeDecode(s[..last]);
    }
  }

  /** Distinct indices never share a letter suffix. */
  lemma LettersInjective(i: nat, j: nat)
    ensures DiskLetterForIndex(i) == DiskLetterForIndex(j) <==> i == j
  {
    DecodeEncode(i);
    DecodeEncode(j);
  }

  /** One more letter keeps the order of what stands before it. */
  lemma OneMoreLetter(s: string, t: string, x: char, y: char)
    requires ComesBefore(s, t)
    ensures ComesBefore(s + [x], t + [y])
  {
    if |s| == |t| {
      var k: nat :| FirstDifference(s, t, k);
      assert (s + [x])[..k] == s[..k] && (t + [y])[..k] == t[..k];
      assert FirstDifference(s + [x], t + [y], k);
    }
  }

  lemma LastLetterDecides(s: string, x: char, y: char)
    requires x < y
    ensures ComesBefore(s + [x], s + [y])
  {
    assert FirstDifference(s + [x], s + [y], |s|);
  }

  /** What stands before the last letter. */
  function Stem(i: nat): string {
    if i / ALPHABET == 0 then "" else DiskLetterForIndex(i / ALPHABET - 1)
  }

  lemma StemAndLetter(i: nat)
    ensures DiskLetterForIndex(i) == Stem(i) + [Letter(i % ALPHABET)]
  {
  }

  lemma {:induction false} SmallerIndexComesBefore(i: nat, j: nat)
    requires i < j
    ensures ComesBefore(DiskLetterForIndex(i), DiskLetterForIndex(j))
  {
    var x, y := Letter(i % ALPHABET), Letter(j % ALPHABET);
    StemAndLetter(i);
    StemAndLetter(j);
    if i / ALPHABET == j / ALPHABET {
      LastLetterDecides(Stem(i), x, y);
    } else {
      if i / ALPHABET > 0 { SmallerIndexComesBefore(i / ALPHABET - 1, j / ALPHABET - 1); }
      assert ComesBefore(Stem(i), Stem(j));
      OneMoreLetter(Stem(i), Stem(j), x, y);
    }
  }

  /** The enumeration is strictly increasing, in both directions. */
  lemma LettersAreOrdered(i: nat, j: nat)
    ensures i < j <==> ComesBefore(DiskLetterForIndex(i), DiskLetterForIndex(j))
  {
    if i < j {
      SmallerIndexComesBefore(i, j);
    } else if j < i {
      SmallerIndexComesBefore(j, i);
    }
  }
}
