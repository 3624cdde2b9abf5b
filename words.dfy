/** Word splitting as Python's `str.split()` does it when called without a
    separator: the string is cut at every run of whitespace, and leading and
    trailing whitespace produce no empty words. The matching engine uses only
    the number of words, to decide which of two keywords is more specific. */
module Words {

  /** The characters for which Python's `str.isspace()` holds, which are the
      separators `str.split()` cuts at. */
  predicate IsSpace(c: char) {
    ('\U{9}' <= c <= '\U{D}') || ('\U{1C}' <= c <= '\U{20}') ||
    c == '\U{85}' || c == '\U{A0}' || c == '\U{1680}' ||
    ('\U{2000}' <= c <= '\U{200A}') || c == '\U{2028}' || c == '\U{2029}' ||
    c == '\U{202F}' || c == '\U{205F}' || c == '\U{3000}'
  }

  /** Length of the run of non-space characters at the start of `s`. */
  function WordLength(s: string): (n: nat)
    ensures n <= |s|
    ensures forall k :: 0 <= k < n ==> !IsSpace(s[k])
    ensures n == |s| || IsSpace(s[n])
  {
    if s == [] || IsSpace(s[0]) then 0 else 1 + WordLength(s[1..])
  }

  /** `s.split()`: the maximal runs of non-space characters of `s`, in order.
      The contract and the lemmas below pin down the number of words (which
      is all the matching engine reads) and what the words are made of; that
      each word is a maximal run is stated only by the body. */
  function Split(s: string): (words: seq<string>)
    ensures forall w :: w in words ==> w != [] && forall k :: 0 <= k < |w| ==> !IsSpace(w[k])
    decreases |s|
  {
    if s == [] then []
    else if IsSpace(s[0]) then Split(s[1..])
    else
      var n := WordLength(s);
      [s[..n]] + Split(s[n..])
  }

  /** `len(s.split())`. */
  function WordCount(s: string): nat {
    |Split(s)|
  }

  /** The characters of `s` that are not whitespace, in order. */
  function NonSpace(s: string): string {
    if s == [] then [] else (if IsSpace(s[0]) then [] else [s[0]]) + NonSpace(s[1..])
  }

  /** The words of a list written one after another, with nothing between. */
  function Concat(words: seq<string>): string {
    if words == [] then [] else words[0] + Concat(words[1..])
  }

  /** The number of positions of `s` where a word starts: a non-space
      character whose predecessor is whitespace (or, for the first character,
      `afterSpace`). This counts words without cutting the string. */
  function WordStarts(s: string, afterSpace: bool): nat {
    if s == [] then 0
    else (if afterSpace && !IsSpace(s[0]) then 1 else 0) + WordStarts(s[1..], IsSpace(s[0]))
  }

  lemma {:induction false} NonSpaceAppend(a: string, b: string)
    ensures NonSpace(a + b) == NonSpace(a) + NonSpace(b)
  {
    if a == [] {
      assert a + b == b;
    } else {
      assert (a + b)[1..] == a[1..] + b;
      NonSpaceAppend(a[1..], b);
    }
  }

  lemma {:induction false} NonSpaceOfWord(w: string)
    requires forall k :: 0 <= k < |w| ==> !IsSpace(w[k])
    ensures NonSpace(w) == w
  {
    if w != [] {
      NonSpaceOfWord(w[1..]);
    }
  }

  /** Splitting loses exactly the whitespace: the words, put back together,
      are the string with its whitespace removed. */
  lemma {:induction false} SplitKeepsNonSpace(s: string)
    ensures Concat(Split(s)) == NonSpace(s)
    decreases |s|
  {
    if s == [] {
    } else if IsSpace(s[0]) {
      SplitKeepsNonSpace(s[1..]);
    } else {
      var n := WordLength(s);
      var rest := Split(s[n..]);
      assert ([s[..n]] + rest)[1..] == rest;
      SplitKeepsNonSpace(s[n..]);
      assert s == s[..n] + s[n..];
      NonSpaceAppend(s[..n], s[n..]);
      NonSpaceOfWord(s[..n]);
    }
  }

  /** Inside a word, no new word starts. */
  lemma {:induction false} WordStartsSkipWord(s: string)
    ensures WordStarts(s, false) == WordStarts(s[WordLength(s)..], false)
  {
    if s != [] && !IsSpace(s[0]) {
      WordStartsSkipWord(s[1..]);
      assert s[1..][WordLength(s[1..])..] == s[WordLength(s)..];
    }
  }

  /** Before whitespace or at the end, what precedes does not matter. */
  lemma WordStartsAtSpace(s: string)
    requires s == [] || IsSpace(s[0])
    ensures WordStarts(s, false) == WordStarts(s, true)
  {
  }

  /** The number of words `split()` returns is the number of word starts. */
  lemma {:induction false} WordCountIsWordStarts(s: string)
    ensures WordCount(s) == WordStarts(s, true)
    decreases |s|
  {
    if s == [] {
    } else if IsSpace(s[0]) {
      WordCountIsWordStarts(s[1..]);
    } else {
      var n := WordLength(s);
      WordCountIsWordStarts(s[n..]);
      WordStartsSkipWord(s[1..]);
      assert s[1..][WordLength(s[1..])..] == s[n..];
      WordStartsAtSpace(s[n..]);
    }
  }

  /** A run of non-space characters followed by whitespace (or by nothing)
      is split off as one word. */
  lemma {:induction false} SplitLeadingWord(w: string, rest: string)
    requires w != [] && forall k :: 0 <= k < |w| ==> !IsSpace(w[k])
    requires rest == [] || IsSpace(rest[0])
    ensures Split(w + rest) == [w] + Split(rest)
  {
    WordLengthOfWord(w, rest);
    assert (w + rest)[..|w|] == w && (w + rest)[|w|..] == rest;
  }

  lemma {:induction false} WordLengthOfWord(w: string, rest: string)
    requires forall k :: 0 <= k < |w| ==> !IsSpace(w[k])
    requires rest == [] || IsSpace(rest[0])
    ensures WordLength(w + rest) == |w|
  {
    if w == [] {
      assert w + rest == rest;
    } else {
      assert (w + rest)[1..] == w[1..] + rest;
      WordLengthOfWord(w[1..], rest);
    }
  }

  /** `"ai".split()` is the one word `"ai"`. */
  lemma WordCountOneWord()
    ensures Split("ai") == ["ai"] && WordCount("ai") == 1
  {
    SplitLeadingWord("ai", "");
    assert "ai" + "" == "ai";
  }

  /** Three words separated by single spaces split into those three words. */
  lemma {:induction false} SplitThreeWords(a: string, b: string, c: string)
    requires a != [] && forall k :: 0 <= k < |a| ==> !IsSpace(a[k])
    requires b != [] && forall k :: 0 <= k < |b| ==> !IsSpace(b[k])
    requires c != [] && forall k :: 0 <= k < |c| ==> !IsSpace(c[k])
    ensures Split(a + " " + b + " " + c) == [a, b, c]
  {
    var r2 := " " + c;
    SplitAfterSpace(c);
    SplitLeadingWord(c, "");
    assert c + "" == c;
    assert Split(r2) == [c];
    var w2 := b + r2;
    SplitLeadingWord(b, r2);
    assert Split(w2) == [b, c];
    var r1 := " " + w2;
    SplitAfterSpace(w2);
    SplitLeadingWord(a, r1);
    assert Split(a + r1) == [a, b, c];
    ConcatAssoc(a, b, c);
  }

  lemma ConcatAssoc(a: string, b: string, c: string)
    ensures a + " " + b + " " + c == a + (" " + (b + (" " + c)))
  {
  }

  lemma SplitAfterSpace(s: string)
    ensures Split(" " + s) == Split(s)
  {
    assert (" " + s)[1..] == s;
  }

  /** `"artificial intelligence research".split()` has three words. */
  lemma WordCountThreeWords()
    ensures WordCount("artificial intelligence research") == 3
  {
    var a, b, c := "artificial", "intelligence", "research";
    NoSpaceIn(a);
    NoSpaceIn(b);
    NoSpaceIn(c);
    SplitThreeWords(a, b, c);
    JoinedBySpaces();
  }

  lemma NoSpaceIn(w: string)
    requires w == "artificial" || w == "intelligence" || w == "research"
    ensures w != [] && forall k :: 0 <= k < |w| ==> !IsSpace(w[k])
  {
  }

  lemma JoinedBySpaces()
    ensures "artificial" + " " + "intelligence" + " " + "research" == "artificial intelligence research"
  {
  }
}
