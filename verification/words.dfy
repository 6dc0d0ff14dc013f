/**
  The whitespace-word size metric (`Words` in src/splitter/words.rs, `WordCounter` in
  src/sizer/words.rs): the number of items `str::split_whitespace` yields, that is, the
  maximal runs of characters without the Unicode White_Space property.
*/
module Words {

  /** The White_Space property of the Unicode Character Database, which `char::is_whitespace` tests. */
  predicate IsWhitespace(c: char) {
    || '\U{9}' <= c <= '\U{D}'
    || c == ' '
    || c == '\U{85}'
    || c == '\U{A0}'
    || c == '\U{1680}'
    || '\U{2000}' <= c <= '\U{200A}'
    || c == '\U{2028}'
    || c == '\U{2029}'
    || c == '\U{202F}'
    || c == '\U{205F}'
    || c == '\U{3000}'
  }

  /** A word: a non-empty text without whitespace. */
  predicate IsWord(w: string) {
    |w| > 0 && forall i :: 0 <= i < |w| ==> !IsWhitespace(w[i])
  }

  /** The length of the run of non-whitespace characters at the front of `s`. */
  function RunLength(s: string): (n: nat)
    ensures n <= |s|
    ensures forall i :: 0 <= i < n ==> !IsWhitespace(s[i])
    ensures n < |s| ==> IsWhitespace(s[n])
  {
    if |s| == 0 || IsWhitespace(s[0]) then 0 else 1 + RunLength(s[1..])
  }

  /** The words of `s` in order, as `str::split_whitespace` yields them. */
  function SplitWhitespace(s: string): (words: seq<string>)
    ensures forall k :: 0 <= k < |words| ==> IsWord(words[k])
    decreases |s|
  {
    if |s| == 0 then []
    else if IsWhitespace(s[0]) then SplitWhitespace(s[1..])
    else
      var n := RunLength(s);
      [s[..n]] + SplitWhitespace(s[n..])
  }

  /** The size the word metric gives a text. */
  function Count(s: string): nat {
    |SplitWhitespace(s)|
  }

  // ---------------------------------------------------------------------------------------
  // An independent description of the count: positions where a word begins

  /** Position `i` holds the first character of a word. */
  predicate StartsWord(s: string, i: nat)
    requires i < |s|
  {
    !IsWhitespace(s[i]) && (i == 0 || IsWhitespace(s[i - 1]))
  }

  /** The number of word beginnings at positions `i` and later. */
  function WordStarts(s: string, i: nat): nat
    requires i <= |s|
    decreases |s| - i
  {
    if i == |s| then 0 else (if StartsWord(s, i) then 1 else 0) + WordStarts(s, i + 1)
  }

  /** The characters of `s` that are not whitespace, in order. */
  function NonWhitespace(s: string): string {
    if |s| == 0 then [] else (if IsWhitespace(s[0]) then [] else [s[0]]) + NonWhitespace(s[1..])
  }

  function Concat(words: seq<string>): string {
    if |words| == 0 then [] else words[0] + Concat(words[1..])
  }

  lemma {:induction false} NoStartsBetween(s: string, j: nat, k: nat)
    requires j <= k <= |s|
    requires forall p :: j <= p < k ==> !StartsWord(s, p)
    ensures WordStarts(s, j) == WordStarts(s, k)
    decreases k - j
  {
    if j < k {
      NoStartsBetween(s, j + 1, k);
    }
  }

  lemma SplitOfWord(t: string)
    requires |t| > 0 && !IsWhitespace(t[0])
    ensures SplitWhitespace(t) == [t[..RunLength(t)]] + SplitWhitespace(t[RunLength(t)..])
  {
  }

  lemma SplitOfSpace(t: string)
    requires |t| > 0 && IsWhitespace(t[0])
    ensures SplitWhitespace(t) == SplitWhitespace(t[1..])
  {
  }

  /** A word at `i` contributes one split and one word beginning, and nothing else up to
      the end of its run. */
  lemma WordRunFront(s: string, i: nat) returns (n: nat)
    requires i < |s| && (i == 0 || IsWhitespace(s[i - 1])) && !IsWhitespace(s[i])
    ensures 0 < n && i + n <= |s|
    ensures i + n < |s| ==> IsWhitespace(s[i + n])
    ensures |SplitWhitespace(s[i..])| == 1 + |SplitWhitespace(s[i + n..])|
    ensures WordStarts(s, i) == 1 + WordStarts(s, i + n)
  {
    var t := s[i..];
    n := RunLength(t);
    assert t[0] == s[i];
    assert |SplitWhitespace(t)| == 1 + |SplitWhitespace(s[i + n..])| by {
      SplitOfWord(t);
      assert t[n..] == s[i + n..];
    }
    if i + n < |s| {
      assert s[i + n] == t[n];
    }
    RunStartsOnce(s, i, n);
  }

  /** A run of `n` non-whitespace characters at a word beginning `i` holds exactly one word beginning. */
  lemma RunStartsOnce(s: string, i: nat, n: nat)
    requires 0 < n && i + n <= |s| && (i == 0 || IsWhitespace(s[i - 1]))
    requires forall p :: 0 <= p < n ==> !IsWhitespace(s[i..][p])
    ensures WordStarts(s, i) == 1 + WordStarts(s, i + n)
  {
    assert !IsWhitespace(s[i..][0]);
    assert StartsWord(s, i);
    forall p | i + 1 <= p < i + n
      ensures !StartsWord(s, p)
    {
      assert s[p - 1] == s[i..][p - 1 - i];
    }
    NoStartsBetween(s, i + 1, i + n);
  }

  /** Whitespace at `j` contributes neither a split nor a word beginning. */
  lemma SpaceFront(s: string, j: nat)
    requires j < |s| && IsWhitespace(s[j])
    ensures |SplitWhitespace(s[j..])| == |SplitWhitespace(s[j + 1..])|
    ensures WordStarts(s, j) == WordStarts(s, j + 1)
  {
    SplitOfSpace(s[j..]);
    assert s[j..][1..] == s[j + 1..];
  }

  /** From a position that starts the text, follows whitespace or holds whitespace, the splits
      of the rest are its word beginnings. */
  lemma {:induction false} SplitCountsStarts(s: string, i: nat)
    requires i <= |s| && (i == 0 || i == |s| || IsWhitespace(s[i - 1]) || IsWhitespace(s[i]))
    ensures |SplitWhitespace(s[i..])| == WordStarts(s, i)
    decreases |s| - i, 1
  {
    if i == |s| {
      assert s[i..] == [];
    } else if IsWhitespace(s[i]) {
      SpaceCountsStarts(s, i);
    } else {
      WordCountsStarts(s, i);
    }
  }

  lemma {:induction false} SpaceCountsStarts(s: string, i: nat)
    requires i < |s| && IsWhitespace(s[i])
    ensures |SplitWhitespace(s[i..])| == WordStarts(s, i)
    decreases |s| - i, 0
  {
    SpaceFront(s, i);
    SplitCountsStarts(s, i + 1);
  }

  lemma {:induction false} WordCountsStarts(s: string, i: nat)
    requires i < |s| && (i == 0 || IsWhitespace(s[i - 1])) && !IsWhitespace(s[i])
    ensures |SplitWhitespace(s[i..])| == WordStarts(s, i)
    decreases |s| - i, 0
  {
    var n := WordRunFront(s, i);
    SplitCountsStarts(s, i + n);
  }

  /** The word count is the number of positions where a word begins. */
  lemma CountIsWordStarts(s: string)
    ensures Count(s) == WordStarts(s, 0)
  {
    assert s[0..] == s;
    SplitCountsStarts(s, 0);
  }

  lemma {:induction false} StartsAfterJoin(a: string, b: string, j: nat)
    requires 1 <= j <= |b|
    ensures WordStarts(a + b, |a| + j) == WordStarts(b, j)
    decreases |b| - j
  {
    if j < |b| {
      StartsAfterJoin(a, b, j + 1);
    }
  }

  /** Whether `a + b` glues the last word of `a` to the first word of `b`. */
  predicate Glued(a: string, b: string) {
    |a| > 0 && |b| > 0 && !IsWhitespace(a[|a| - 1]) && !IsWhitespace(b[0])
  }

  lemma {:induction false} StartsOfJoin(a: string, b: string, i: nat)
    requires i <= |a|
    ensures WordStarts(a + b, i) + (if Glued(a, b) then 1 else 0) == WordStarts(a, i) + WordStarts(b, 0)
    decreases |a| - i
  {
    if i < |a| {
      assert StartsWord(a + b, i) == StartsWord(a, i);
      StartsOfJoin(a, b, i + 1);
    } else if |b| > 0 {
      StartsAfterJoin(a, b, 1);
    } else {
      assert a + b == a;
    }
  }

  /** Word counts are not additive: joining two texts merges a word across the seam when
      neither side has whitespace there. This is why merged chunks are measured afresh. */
  lemma CountOfJoin(a: string, b: string)
    ensures Count(a + b) == Count(a) + Count(b) - (if Glued(a, b) then 1 else 0)
  {
    StartsOfJoin(a, b, 0);
    CountIsWordStarts(a + b);
    CountIsWordStarts(a);
    CountIsWordStarts(b);
  }

  lemma {:induction false} NonWhitespaceAppend(x: string, y: string)
    ensures NonWhitespace(x + y) == NonWhitespace(x) + NonWhitespace(y)
    decreases |x|
  {
    if |x| > 0 {
      assert (x + y)[1..] == x[1..] + y;
      NonWhitespaceAppend(x[1..], y);
    } else {
      assert x + y == y;
    }
  }

  lemma {:induction false} NonWhitespaceOfWord(w: string)
    requires forall i :: 0 <= i < |w| ==> !IsWhitespace(w[i])
    ensures NonWhitespace(w) == w
    decreases |w|
  {
    if |w| > 0 {
      NonWhitespaceOfWord(w[1..]);
    }
  }

  /** The words hold exactly the non-whitespace characters of the text, in order. */
  lemma {:induction false} WordsKeepText(s: string)
    ensures Concat(SplitWhitespace(s)) == NonWhitespace(s)
    decreases |s|
  {
    if |s| > 0 {
      if IsWhitespace(s[0]) {
        WordsKeepText(s[1..]);
      } else {
        var n := RunLength(s);
        var words := SplitWhitespace(s);
        assert words[1..] == SplitWhitespace(s[n..]);
        WordsKeepText(s[n..]);
        assert s == s[..n] + s[n..];
        NonWhitespaceAppend(s[..n], s[n..]);
        NonWhitespaceOfWord(s[..n]);
      }
    }
  }

  /** A text measures 0 exactly when it is empty or all whitespace. */
  lemma {:induction false} CountZero(s: string)
    ensures Count(s) == 0 <==> forall i :: 0 <= i < |s| ==> IsWhitespace(s[i])
    decreases |s|
  {
    if |s| > 0 && IsWhitespace(s[0]) {
      CountZero(s[1..]);
      assert forall i :: 1 <= i < |s| ==> s[i] == s[1..][i - 1];
    }
  }

  /** Words joined by single spaces, as a writer would type them. */
  function Unwords(words: seq<string>): string
  {
    if |words| == 0 then ""
    else if |words| == 1 then words[0]
    else words[0] + " " + Unwords(words[1..])
  }

  lemma SplitWordThenSpace(w: string, r: string)
    requires IsWord(w)
    ensures SplitWhitespace(w + " " + r) == [w] + SplitWhitespace(r)
  {
    var s := w + " " + r;
    assert s[|w|] == ' ' && s[0] == w[0];
    var n := RunLength(s);
    assert n == |w|;
    SplitOfWord(s);
    SplitOfSpace(s[n..]);
    assert s[..n] == w;
    assert s[n..][1..] == r;
  }

  lemma SplitSingleWord(w: string)
    requires IsWord(w)
    ensures SplitWhitespace(w) == [w]
  {
    SplitOfWord(w);
    var n := RunLength(w);
    assert w[..n] == w;
    assert w[n..] == [];
  }

  /** Splitting undoes joining: words separated by single spaces split back into the same words. */
  lemma {:induction false} SplitUnwords(words: seq<string>)
    requires forall k :: 0 <= k < |words| ==> IsWord(words[k])
    ensures SplitWhitespace(Unwords(words)) == words
    decreases |words|
  {
    if |words| == 1 {
      SplitSingleWord(words[0]);
    } else if |words| > 1 {
      SplitWordThenSpace(words[0], Unwords(words[1..]));
      SplitUnwords(words[1..]);
    }
  }

  /** A character-by-character test for words, which unfolds on literal texts. */
  predicate Visible(w: string) {
    |w| == 0 || (!IsWhitespace(w[0]) && Visible(w[1..]))
  }

  lemma {:induction false} VisibleIsWord(w: string)
    requires |w| > 0 && Visible(w)
    ensures IsWord(w)
    decreases |w|
  {
    if |w| > 1 {
      VisibleIsWord(w[1..]);
      assert forall i :: 1 <= i < |w| ==> w[i] == w[1..][i - 1];
    }
  }

  lemma UnwordsCons(w: string, rest: seq<string>)
    requires |rest| > 0
    ensures Unwords([w] + rest) == w + " " + Unwords(rest)
  {
    assert ([w] + rest)[1..] == rest;
  }

  /** The sentence of the worked example below, put together from its words one suffix at a time. */
  lemma MagicText()
    ensures Unwords(["I", "can", "feel", "the", "magic,", "can", "you?"]) == "I can feel the magic, can you?"
  {
    MagicSuffix1();
    UnwordsCons("I", ["can", "feel", "the", "magic,", "can", "you?"]);
    assert ["I"] + ["can", "feel", "the", "magic,", "can", "you?"] == ["I", "can", "feel", "the", "magic,", "can", "you?"];
    MagicGlue();
  }

  /** The last step of the sentence, written out character by character. */
  lemma MagicGlue()
    ensures "I" + " " + "can feel the magic, can you?" == "I can feel the magic, can you?"
  {
  }

  lemma MagicSuffix1()
    ensures Unwords(["can", "feel", "the", "magic,", "can", "you?"]) == "can feel the magic, can you?"
  {
    MagicSuffix2();
    UnwordsCons("can", ["feel", "the", "magic,", "can", "you?"]);
    assert ["can"] + ["feel", "the", "magic,", "can", "you?"] == ["can", "feel", "the", "magic,", "can", "you?"];
    MagicGlue1();
  }

  /** The step before it, written out the same way. */
  lemma MagicGlue1()
    ensures "can" + " " + "feel the magic, can you?" == "can feel the magic, can you?"
  {
  }

  lemma MagicSuffix2()
    ensures Unwords(["feel", "the", "magic,", "can", "you?"]) == "feel the magic, can you?"
  {
    MagicSuffix3();
    UnwordsCons("feel", ["the", "magic,", "can", "you?"]);
    assert ["feel"] + ["the", "magic,", "can", "you?"] == ["feel", "the", "magic,", "can", "you?"];
  }

  lemma MagicSuffix3()
    ensures Unwords(["the", "magic,", "can", "you?"]) == "the magic, can you?"
  {
    MagicSuffix4();
    UnwordsCons("the", ["magic,", "can", "you?"]);
    assert ["the"] + ["magic,", "can", "you?"] == ["the", "magic,", "can", "you?"];
  }

  lemma MagicSuffix4()
    ensures Unwords(["magic,", "can", "you?"]) == "magic, can you?"
  {
    MagicSuffix5();
    UnwordsCons("magic,", ["can", "you?"]);
    assert ["magic,"] + ["can", "you?"] == ["magic,", "can", "you?"];
  }

  lemma MagicSuffix5()
    ensures Unwords(["can", "you?"]) == "can you?"
  {
    UnwordsCons("can", ["you?"]);
    assert ["can"] + ["you?"] == ["can", "you?"];
  }

  lemma MagicWords()
    ensures forall k :: 0 <= k < 7 ==> IsWord(["I", "can", "feel", "the", "magic,", "can", "you?"][k])
  {
    var words := ["I", "can", "feel", "the", "magic,", "can", "you?"];
    forall k | 0 <= k < |words|
      ensures IsWord(words[k])
    {
      VisibleIsWord(words[k]);
    }
  }

  /** The worked example of src/splitter/words.rs: punctuation stays attached to its word. */
  lemma MagicExample()
    ensures Count("I can feel the magic, can you?") == 7
  {
    MagicWords();
    MagicText();
    SplitUnwords(["I", "can", "feel", "the", "magic,", "can", "you?"]);
  }

  /** The worked example of src/sizer/words.rs, and the empty text. */
  lemma HelloExample()
    ensures Count("hello, world!") == 2
    ensures Count("") == 0
  {
    var words := ["hello,", "world!"];
    HelloWords();
    assert forall k :: 0 <= k < |words| ==> IsWord(words[k]);
    UnwordsCons("hello,", ["world!"]);
    assert ["hello,"] + ["world!"] == words;
    assert "hello," + " " + "world!" == "hello, world!";
    SplitUnwords(words);
  }

  lemma HelloWords()
    ensures IsWord("hello,") && IsWord("world!")
  {
    VisibleIsWord("hello,");
    VisibleIsWord("world!");
  }
}
