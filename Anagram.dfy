/**
  The anagram check (`are_anagrams`): drop the spaces, lowercase, compare lengths, then count the
  characters of the first string in a map and count them down with the second.
*/
module Anagram {
  /** `str::replace(" ", "")`: removes the space character U+0020 and nothing else. */
  function RemoveSpaces(s: string): (r: string)
    ensures ' ' !in r && |r| <= |s|
    ensures forall c :: c != ' ' ==> multiset(r)[c] == multiset(s)[c]
  {
    if s == [] then []
    else
      assert s == [s[0]] + s[1..];
      if s[0] == ' ' then RemoveSpaces(s[1..]) else [s[0]] + RemoveSpaces(s[1..])
  }

  /** `char::to_lowercase` on ASCII letters; other characters are kept. */
  function LowerChar(c: char): char {
    if 'A' <= c <= 'Z' then (c as int + 32) as char else c
  }

  function Lower(s: string): (r: string)
    ensures |r| == |s| && forall i :: 0 <= i < |s| ==> r[i] == LowerChar(s[i])
  {
    seq(|s|, i requires 0 <= i < |s| => LowerChar(s[i]))
  }

  /** Lines 18-19. */
  function Normalise(s: string): string {
    Lower(RemoveSpaces(s))
  }

  /** The two strings normalise to the same characters with the same multiplicities. */
  predicate IsAnagram(s1: string, s2: string) {
    multiset(Normalise(s1)) == multiset(Normalise(s2))
  }

  /** The number of times each character occurs, as the map of lines 25-29 holds it. */
  function Count(m: map<char, int>, c: char): int {
    if c in m then m[c] else 0
  }

  lemma PrefixMultiset(t: string, k: nat)
    requires k <= |t|
    ensures multiset(t[..k]) <= multiset(t)
  {
    assert t == t[..k] + t[k..];
  }

  lemma PrefixStep(t: string, k: nat)
    requires k < |t|
    ensures multiset(t[..k + 1]) == multiset(t[..k]) + multiset{t[k]}
  {
    assert t[..k + 1] == t[..k] + [t[k]];
  }

  /** Lines 25-29: the count of each character of `t`; every key occurs in `t`. */
  method CountChars(t: string) returns (counts: map<char, int>)
    ensures forall c :: c in counts <==> c in multiset(t)
    ensures forall c :: c in counts ==> counts[c] == multiset(t)[c]
  {
    counts := map[];
    for k := 0 to |t|
      invariant forall c :: c in counts <==> c in multiset(t[..k])
      invariant forall c :: c in counts ==> counts[c] == multiset(t[..k])[c]
    {
      PrefixStep(t, k);
      var ch := t[k];
      counts := counts[ch := Count(counts, ch) + 1];
    }
    assert t[..|t|] == t;
  }

  /**
    `are_anagrams`: true exactly when the strings, with spaces removed and ASCII letters
    lowercased, have the same characters with the same multiplicities.
  */
  method AreAnagrams(s1: string, s2: string) returns (r: bool)
    ensures r <==> IsAnagram(s1, s2)
    ensures r <==> IsAnagram(s2, s1)
  {
    var t1 := Normalise(s1);
    var t2 := Normalise(s2);
    if |t1| != |t2| {
      assert |multiset(t1)| != |multiset(t2)|;
      return false;
    }
    var counts := CountChars(t1);
    r := CountDown(t1, t2, counts);
  }

  /**
    What the countdown map holds after the characters `p` of the second string: for each character of
    `t1`, how many of its occurrences in `t1` are not yet matched in `p`; no other character occurs in `p`.
  */
  ghost predicate CountsLeft(left: map<char, int>, t1: string, p: string) {
    && (forall c :: c in left <==> c in multiset(t1))
    && (forall c :: c in left ==> left[c] >= 0 && left[c] + multiset(p)[c] == multiset(t1)[c])
    && (forall c :: c !in left ==> multiset(p)[c] == 0)
  }

  /** Matching one more occurrence of `t2[k]` decrements its count. */
  lemma CountStep(left: map<char, int>, t1: string, t2: string, k: nat)
    requires k < |t2| && CountsLeft(left, t1, t2[..k]) && t2[k] in left && left[t2[k]] >= 1
    ensures CountsLeft(left[t2[k] := left[t2[k]] - 1], t1, t2[..k + 1])
  {
    PrefixStep(t2, k);
  }

  /** After all of `t2`, every count is zero exactly when the two strings have the same characters. */
  lemma CountsFinal(left: map<char, int>, t1: string, t2: string)
    requires CountsLeft(left, t1, t2)
    ensures (forall c | c in left :: left[c] == 0) <==> multiset(t1) == multiset(t2)
  {
    if forall c | c in left :: left[c] == 0 {
      assert forall c :: multiset(t1)[c] == multiset(t2)[c];
    } else {
      var c :| c in left && left[c] != 0;
      assert multiset(t1)[c] != multiset(t2)[c];
    }
  }

  /** A character of `p + [ch]` that `t1` lacks, or holds fewer times, tells the strings apart. */
  lemma CountExceeded(left: map<char, int>, t1: string, t2: string, k: nat)
    requires k < |t2| && CountsLeft(left, t1, t2[..k])
    requires t2[k] !in left || left[t2[k]] == 0
    ensures multiset(t1) != multiset(t2)
  {
    PrefixStep(t2, k);
    PrefixMultiset(t2, k + 1);
    assert multiset(t2)[t2[k]] > multiset(t1)[t2[k]];
  }

  /**
    Lines 31-43: counts the characters of `t2` down from the counts of `t1`; false as soon as one is
    missing or would go below zero, and otherwise whether every count ends at zero.
  */
  method CountDown(t1: string, t2: string, counts: map<char, int>) returns (r: bool)
    requires CountsLeft(counts, t1, [])
    ensures r <==> multiset(t1) == multiset(t2)
  {
    var left := counts;
    for k := 0 to |t2|
      invariant CountsLeft(left, t1, t2[..k])
    {
      var ch := t2[k];
      if ch !in left {
        CountExceeded(left, t1, t2, k);
        return false;
      }
      var count := left[ch] - 1;
      if count < 0 {
        CountExceeded(left, t1, t2, k);
        return false;
      }
      CountStep(left, t1, t2, k);
      left := left[ch := count];
    }
    assert t2[..|t2|] == t2;
    CountsFinal(left, t1, t2);
    r := forall c | c in left :: left[c] == 0;
  }

  lemma {:induction false} RemoveSpacesNone(s: string)
    requires ' ' !in s
    ensures RemoveSpaces(s) == s
  {
    if s != [] {
      RemoveSpacesNone(s[1..]);
    }
  }

  /** A string with no space and no upper-case ASCII letter is already normal. */
  lemma NormalAlready(s: string)
    requires ' ' !in s && forall i :: 0 <= i < |s| ==> !('A' <= s[i] <= 'Z')
    ensures Normalise(s) == s
  {
    RemoveSpacesNone(s);
  }

  /** Punctuation is compared like any other character: a comma is not dropped. */
  lemma PunctuationCounts()
    ensures !IsAnagram("a,b", "ab")
  {
    NormalAlready("a,b");
    NormalAlready("ab");
    assert "a,b" == ['a', ',', 'b'];
    assert multiset("a,b")[','] == 1;
    assert multiset("ab")[','] == 0;
  }

  /** The test of lines 53-59. */
  lemma ListenSilent()
    ensures IsAnagram("listen", "silent")
  {
    NormalAlready("listen");
    NormalAlready("silent");
    ListenSilentCounts();
  }

  lemma ListenSilentCounts()
    ensures multiset("listen") == multiset("silent")
  {
    assert multiset("listen") == multiset{'l', 'i', 's', 't', 'e', 'n'};
    assert multiset("silent") == multiset{'s', 'i', 'l', 'e', 'n', 't'};
  }

  /** The test of lines 71-77. */
  lemma HelloWorld()
    ensures !IsAnagram("hello", "world")
  {
    NormalAlready("hello");
    NormalAlready("world");
    HelloWorldCounts();
  }

  lemma HelloWorldCounts()
    ensures multiset("hello")['h'] == 1 && multiset("world")['h'] == 0
  {
    assert "hello" == ['h', 'e', 'l', 'l', 'o'];
    assert "world" == ['w', 'o', 'r', 'l', 'd'];
  }
}
