/**
 * The two string operations of Python's `str` that the handlers in app.py
 * rely on: `lower()` and `split()` with no argument.
 *
 * `lower()` is modelled as ASCII lower-casing; `split()` as the list of
 * maximal runs of characters that are not whitespace in the sense of
 * `str.isspace`, empty tokens dropped.
 */
module Text {

  /** Python's `str.isspace` on a single character. */
  predicate IsSpace(c: char) {
    || c == ' '
    || '\t' <= c <= '\r'
    || '\U{1c}' <= c <= '\U{1f}'
    || c == '\U{85}' || c == '\U{a0}' || c == '\U{1680}'
    || '\U{2000}' <= c <= '\U{200a}'
    || c == '\U{2028}' || c == '\U{2029}' || c == '\U{202f}'
    || c == '\U{205f}' || c == '\U{3000}'
  }

  function LowerChar(c: char): char {
    if IsUpper(c) then (c as int - 'A' as int + 'a' as int) as char else c
  }

  predicate IsUpper(c: char) {
    'A' <= c <= 'Z'
  }

  /**
   * `s.lower()`, restricted to ASCII letters: the result has no upper-case
   * letter left, and each character is either kept or is the lower-case
   * form of an upper-case letter.
   */
  function Lower(s: string): (r: string)
    ensures |r| == |s|
    ensures forall i :: 0 <= i < |s| ==>
      && !IsUpper(r[i])
      && (r[i] == s[i] || (IsUpper(s[i]) && r[i] as int == s[i] as int + 32))
  {
    seq(|s|, i requires 0 <= i < |s| => LowerChar(s[i]))
  }

  /** A token of `split()`: non-empty and free of whitespace. */
  predicate IsWord(w: string) {
    w != [] && forall i :: 0 <= i < |w| ==> !IsSpace(w[i])
  }

  /** The length of the run of non-whitespace characters that begins `s`. */
  function WordLength(s: string): (n: nat)
    ensures n <= |s|
    ensures forall i :: 0 <= i < n ==> !IsSpace(s[i])
    ensures n < |s| ==> IsSpace(s[n])
  {
    if s == [] || IsSpace(s[0]) then 0 else 1 + WordLength(s[1..])
  }

  /** `s.split()`: the maximal whitespace-free runs of `s`, left to right. */
  function Split(s: string): (words: seq<string>)
    ensures forall k :: 0 <= k < |words| ==> IsWord(words[k])
    decreases |s|
  {
    if s == [] then []
    else if IsSpace(s[0]) then Split(s[1..])
    else
      var n := WordLength(s);
      [s[..n]] + Split(s[n..])
  }

  /** `set(s.split())`: distinct words, no more of them than there are tokens. */
  function Words(s: string): (ws: set<string>)
    ensures forall w :: w in ws ==> IsWord(w)
    ensures |ws| <= |Split(s)|
  {
    DistinctBounded(Split(s));
    set w | w in Split(s)
  }

  /** A sequence has at most as many distinct elements as it has elements. */
  lemma {:induction false} DistinctBounded(xs: seq<string>)
    ensures |set x | x in xs| <= |xs|
  {
    if xs != [] {
      DistinctBounded(xs[1..]);
      assert (set x | x in xs) == (set x | x in xs[1..]) + {xs[0]};
    }
  }

  /** `" ".join(words)`, the inverse of `Split` on well-formed token lists. */
  function JoinWords(words: seq<string>): string {
    if words == [] then []
    else if |words| == 1 then words[0]
    else words[0] + " " + JoinWords(words[1..])
  }

  function LowerAll(words: seq<string>): seq<string> {
    seq(|words|, k requires 0 <= k < |words| => Lower(words[k]))
  }

  /** Lower-casing neither creates nor removes whitespace. */
  lemma LowerCharKeepsSpace(c: char)
    ensures IsSpace(LowerChar(c)) == IsSpace(c)
    ensures LowerChar(LowerChar(c)) == LowerChar(c)
  {
  }

  lemma LowerIdempotent(s: string)
    ensures Lower(Lower(s)) == Lower(s)
  {
    forall i | 0 <= i < |s| ensures Lower(Lower(s))[i] == Lower(s)[i] {
      LowerCharKeepsSpace(s[i]);
    }
  }

  lemma LowerAppend(a: string, b: string)
    ensures Lower(a + b) == Lower(a) + Lower(b)
  {
  }

  /** A word followed by whitespace (or by nothing) is split off whole. */
  lemma SplitWordThen(w: string, rest: string)
    requires IsWord(w)
    requires rest == [] || IsSpace(rest[0])
    ensures Split(w + rest) == [w] + Split(rest)
  {
    var s := w + rest;
    WordLengthUnique(s, |w|);
    assert s[..|w|] == w && s[|w|..] == rest;
  }

  /** Splitting a space-joined list of words gives the words back. */
  lemma {:induction false} SplitJoin(words: seq<string>)
    requires forall k :: 0 <= k < |words| ==> IsWord(words[k])
    ensures Split(JoinWords(words)) == words
  {
    if words == [] {
    } else if |words| == 1 {
      SplitWordThen(words[0], []);
      assert words[0] + [] == words[0];
    } else {
      var tail := JoinWords(words[1..]);
      SplitJoin(words[1..]);
      assert words[0] + " " + tail == words[0] + (" " + tail);
      SplitWordThen(words[0], " " + tail);
      assert (" " + tail)[1..] == tail;
      assert words == [words[0]] + words[1..];
    }
  }

  /** A string of whitespace only has no words. */
  lemma {:induction false} SplitAllSpace(s: string)
    requires forall i :: 0 <= i < |s| ==> IsSpace(s[i])
    ensures Split(s) == []
    decreases |s|
  {
    if s != [] {
      SplitAllSpace(s[1..]);
    }
  }

  /**
   * A whitespace character between two strings separates them, whatever
   * whitespace surrounds it: runs of any length and kind act as one separator.
   */
  lemma {:induction false} SplitSpaceConcat(a: string, c: char, b: string)
    requires IsSpace(c)
    ensures Split(a + [c] + b) == Split(a) + Split(b)
    decreases |a|
  {
    if a == [] {
      assert (a + [c] + b)[1..] == b;
    } else if IsSpace(a[0]) {
      SplitSpaceConcat(a[1..], c, b);
      SplitSpaceConcatSpace(a, c, b);
    } else {
      var n := WordLength(a);
      var w, r := a[..n], a[n..];
      assert a == w + r;
      SplitSpaceConcat(r, c, b);
      SplitSpaceConcatWord(w, r, c, b);
    }
  }

  /** The step of `SplitSpaceConcat` past a leading whitespace character of `a`. */
  lemma SplitSpaceConcatSpace(a: string, c: char, b: string)
    requires a != [] && IsSpace(a[0])
    requires Split(a[1..] + [c] + b) == Split(a[1..]) + Split(b)
    ensures Split(a + [c] + b) == Split(a) + Split(b)
  {
    assert (a + [c] + b)[1..] == a[1..] + [c] + b;
  }

  /** The step of `SplitSpaceConcat` past a word `w` that starts the left-hand string. */
  lemma SplitSpaceConcatWord(w: string, r: string, c: char, b: string)
    requires IsWord(w) && IsSpace(c)
    requires r == [] || IsSpace(r[0])
    requires Split(r + [c] + b) == Split(r) + Split(b)
    ensures Split(w + r + [c] + b) == Split(w + r) + Split(b)
  {
    var rest := r + [c] + b;
    assert rest[0] == if r == [] then c else r[0];
    AppendAssoc(w, r + [c], b);
    AppendAssoc(w, r, [c]);
    SplitWordThen(w, rest);
    SplitWordThen(w, r);
    AppendAssoc([w], Split(r), Split(b));
  }

  lemma AppendAssoc<T>(x: seq<T>, y: seq<T>, z: seq<T>)
    ensures x + (y + z) == (x + y) + z
  {
  }

  /** Lower-casing the whole string splits into the lower-cased words. */
  lemma {:induction false} SplitLower(s: string)
    ensures Split(Lower(s)) == LowerAll(Split(s))
    decreases |s|
  {
    if s != [] {
      if IsSpace(s[0]) {
        SplitLower(s[1..]);
        SplitLowerSpace(s);
      } else {
        SplitLower(s[WordLength(s)..]);
        SplitLowerWord(s);
      }
    }
  }

  /** The step of `SplitLower` past a leading whitespace character. */
  lemma SplitLowerSpace(s: string)
    requires s != [] && IsSpace(s[0])
    requires Split(Lower(s[1..])) == LowerAll(Split(s[1..]))
    ensures Split(Lower(s)) == LowerAll(Split(s))
  {
    var t := Lower(s);
    assert t[0] == LowerChar(s[0]);
    LowerCharKeepsSpace(s[0]);
    assert t[1..] == Lower(s[1..]);
  }

  /** The step of `SplitLower` past a leading word. */
  lemma SplitLowerWord(s: string)
    requires s != [] && !IsSpace(s[0])
    requires Split(Lower(s[WordLength(s)..])) == LowerAll(Split(s[WordLength(s)..]))
    ensures Split(Lower(s)) == LowerAll(Split(s))
  {
    var t := Lower(s);
    var n := WordLength(s);
    assert t[0] == LowerChar(s[0]);
    LowerCharKeepsSpace(s[0]);
    WordLengthLower(s);
    SplitFirstWord(t);
    LowerSlices(s, n);
    LowerAllCons(s[..n], Split(s[n..]));
  }

  lemma LowerSlices(s: string, n: nat)
    requires n <= |s|
    ensures Lower(s)[..n] == Lower(s[..n])
    ensures Lower(s)[n..] == Lower(s[n..])
  {
  }

  /** A string that starts with a word splits into that word and the split of the rest. */
  lemma SplitFirstWord(s: string)
    requires s != [] && !IsSpace(s[0])
    ensures Split(s) == [s[..WordLength(s)]] + Split(s[WordLength(s)..])
  {
  }

  lemma LowerAllCons(w: string, rest: seq<string>)
    ensures LowerAll([w] + rest) == [Lower(w)] + LowerAll(rest)
  {
  }

  /** `WordLength` is the only length with the three properties of its contract. */
  lemma {:induction false} WordLengthUnique(s: string, m: nat)
    requires m <= |s|
    requires forall i :: 0 <= i < m ==> !IsSpace(s[i])
    requires m < |s| ==> IsSpace(s[m])
    ensures WordLength(s) == m
    decreases |s|
  {
    if m > 0 {
      WordLengthUnique(s[1..], m - 1);
    }
  }

  lemma WordLengthLower(s: string)
    ensures WordLength(Lower(s)) == WordLength(s)
  {
    var n := WordLength(s);
    forall i | 0 <= i < |s| ensures IsSpace(Lower(s)[i]) == IsSpace(s[i]) {
      LowerCharKeepsSpace(s[i]);
    }
    WordLengthUnique(Lower(s), n);
  }
}
