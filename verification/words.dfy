/**
 * The tokenizer and the frequency comparator of the `words` program
 * (hw0/words/main.c). The input is the byte stream `fgetc` returns up to end of
 * file; a word is a maximal run of letters (`isalpha` in the C locale) whose
 * length is between 2 and MAX_WORD_LEN, and it is counted lowercased.
 */
module WordScan {
  import opened Ints
  import opened MaximalRuns

  const MAX_WORD_LEN: nat := 64

  /** `isalpha` in the C locale. */
  predicate IsAlpha(c: byte) {
    65 <= c <= 90 || 97 <= c <= 122
  }

  /** `tolower` in the C locale. */
  function ToLower(c: byte): byte {
    if 65 <= c <= 90 then c + 32 else c
  }

  /** A lowercase ASCII letter. */
  predicate IsLowerLetter(c: byte) {
    97 <= c <= 122
  }

  function Lower(w: seq<byte>): (r: seq<byte>)
    ensures |r| == |w|
    ensures forall i :: 0 <= i < |w| ==> r[i] == ToLower(w[i])
  {
    seq(|w|, i requires 0 <= i < |w| => ToLower(w[i]))
  }

  lemma LowerSnoc(w: seq<byte>, c: byte)
    ensures Lower(w + [c]) == Lower(w) + [ToLower(c)]
  {
  }

  /** A run of this many letters is a word. */
  predicate Qualifies(n: nat) {
    2 <= n <= MAX_WORD_LEN
  }

  /** The words among a sequence of letter runs, lowercased, in order. */
  function WordsOf(rs: seq<seq<byte>>): seq<seq<byte>> {
    if rs == [] then []
    else (if Qualifies(|rs[0]|) then [Lower(rs[0])] else []) + WordsOf(rs[1..])
  }

  /** The words of an input, in the order they occur. */
  function Words(s: seq<byte>): seq<seq<byte>> {
    WordsOf(Runs(s, IsAlpha))
  }

  lemma {:induction false} WordsOfAppend(a: seq<seq<byte>>, b: seq<seq<byte>>)
    ensures WordsOf(a + b) == WordsOf(a) + WordsOf(b)
    decreases |a|
  {
    if a == [] {
      assert a + b == b;
    } else {
      assert (a + b)[1..] == a[1..] + b;
      WordsOfAppend(a[1..], b);
    }
  }

  /**
   * A run of letters closed by one non-letter, or by the end of the input, adds
   * exactly one word when its length qualifies and nothing otherwise.
   */
  lemma WordsClose(q: seq<byte>, run: seq<byte>, rest: seq<byte>)
    requires EndsOutside(q, IsAlpha) && AllIn(run, IsAlpha)
    requires rest == [] || (|rest| == 1 && !IsAlpha(rest[0]))
    ensures Words(q + run + rest)
      == Words(q) + (if Qualifies(|run|) then [Lower(run)] else [])
  {
    assert q + run + rest == q + (run + rest);
    RunsAppend(q, run + rest, IsAlpha);
    RunsOfRunThen(run, rest, IsAlpha);
    var tail: seq<seq<byte>> := if run == [] then [] else [run];
    WordsOfAppend(Runs(q, IsAlpha), tail);
    if run != [] {
      assert [run][1..] == [];
    }
  }

  /** Every word is 2 to MAX_WORD_LEN lowercase letters. */
  lemma {:induction false} WordsOfShape(rs: seq<seq<byte>>)
    requires forall j :: 0 <= j < |rs| ==> AllIn(rs[j], IsAlpha)
    ensures forall j :: 0 <= j < |WordsOf(rs)| ==>
      Qualifies(|WordsOf(rs)[j]|) && AllIn(WordsOf(rs)[j], IsLowerLetter)
    decreases |rs|
  {
    if rs != [] {
      WordsOfShape(rs[1..]);
    }
  }

  /** The words of any input are 2 to MAX_WORD_LEN lowercase letters each; runs
      of one letter or of more than MAX_WORD_LEN letters give none. */
  lemma WordsShape(s: seq<byte>)
    ensures forall j :: 0 <= j < |Words(s)| ==>
      Qualifies(|Words(s)[j]|) && AllIn(Words(s)[j], IsLowerLetter)
  {
    RunsAreRuns(s, IsAlpha);
    WordsOfShape(Runs(s, IsAlpha));
  }

  /** Letters surrounded by non-letters form one word exactly when their number
      qualifies. */
  lemma OneRun(run: seq<byte>, c: byte)
    requires AllIn(run, IsAlpha) && !IsAlpha(c)
    ensures Words([c] + run + [c]) == if Qualifies(|run|) then [Lower(run)] else []
  {
    WordsClose([c], run, [c]);
    var none: seq<byte> := [];
    assert Runs([c], IsAlpha) == Runs(none, IsAlpha) by {
      assert [c][1..] == none;
    }
  }

  /** The scanner's state after `i` bytes with `chars` letters pending: the bytes
      before the pending run end outside a run, and the pending ones are letters. */
  predicate Scanned(s: seq<byte>, i: nat, chars: nat) {
    chars <= i <= |s| && EndsOutside(s[..i - chars], IsAlpha) && AllIn(s[i - chars..i], IsAlpha)
  }

  /** The words the pending run adds when it is closed. */
  function Closing(s: seq<byte>, i: nat, chars: nat): seq<seq<byte>>
    requires chars <= i <= |s|
  {
    if Qualifies(chars) then [Lower(s[i - chars..i])] else []
  }

  /** Reading one more byte: a letter extends the pending run, anything else
      closes it. */
  lemma Advance(s: seq<byte>, i: nat, chars: nat)
    requires Scanned(s, i, chars) && i < |s|
    ensures IsAlpha(s[i]) ==> Scanned(s, i + 1, chars + 1)
    ensures IsAlpha(s[i]) ==>
      Lower(s[i + 1 - (chars + 1)..i + 1]) == Lower(s[i - chars..i]) + [ToLower(s[i])]
    ensures !IsAlpha(s[i]) ==> Scanned(s, i + 1, 0)
    ensures !IsAlpha(s[i]) ==> Words(s[..i + 1]) == Words(s[..i - chars]) + Closing(s, i, chars)
  {
    assert s[..i + 1] == s[..i - chars] + s[i - chars..i] + [s[i]];
    if IsAlpha(s[i]) {
      assert s[i + 1 - (chars + 1)..i + 1] == s[i - chars..i] + [s[i]];
      LowerSnoc(s[i - chars..i], s[i]);
    } else {
      WordsClose(s[..i - chars], s[i - chars..i], [s[i]]);
    }
  }

  /** End of file closes the pending run like a non-letter. */
  lemma Finish(s: seq<byte>, chars: nat)
    requires Scanned(s, |s|, chars)
    ensures Words(s) == Words(s[..|s| - chars]) + Closing(s, |s|, chars)
  {
    WordsClose(s[..|s| - chars], s[|s| - chars..], []);
    assert s[..|s| - chars] + s[|s| - chars..] + [] == s;
  }

  /**
   * `num_words`: the number of words of the input. Mirrors the loop of the
   * source, counting letters in `chars` and closing a run at a non-letter and at
   * end of file alike.
   */
  method NumWords(s: seq<byte>) returns (n: nat)
    ensures n == |Words(s)|
    ensures s == [] ==> n == 0
  {
    n := 0;
    var chars: nat := 0;
    var i: nat := 0;
    while true
      invariant Scanned(s, i, chars)
      invariant n == |Words(s[..i - chars])|
      decreases |s| - i
    {
      if i == |s| {
        Finish(s, chars);
        if Qualifies(chars) {
          n := n + 1;
        }
        break;
      }
      Advance(s, i, chars);
      if IsAlpha(s[i]) {
        chars := chars + 1;
      } else {
        if Qualifies(chars) {
          n := n + 1;
        }
        chars := 0;
      }
      i := i + 1;
    }
  }

  /**
   * `count_words`: the words handed to `add_word`, one call per occurrence, in
   * input order. The word under construction is kept lowercased as it is read.
   */
  method CountWords(s: seq<byte>) returns (calls: seq<seq<byte>>)
    ensures calls == Words(s)
  {
    calls := [];
    var chars: nat := 0;
    var word: seq<byte> := [];
    var i: nat := 0;
    while true
      invariant Scanned(s, i, chars)
      invariant word == Lower(s[i - chars..i])
      invariant calls == Words(s[..i - chars])
      decreases |s| - i
    {
      if i == |s| {
        Finish(s, chars);
        if Qualifies(chars) {
          calls := calls + [word];
        }
        break;
      }
      Advance(s, i, chars);
      if IsAlpha(s[i]) {
        chars := chars + 1;
        word := word + [ToLower(s[i])];
      } else {
        if Qualifies(chars) {
          calls := calls + [word];
        }
        chars := 0;
        word := [];
      }
      i := i + 1;
    }
  }

  // ---- The comparator ----

  /** A word and its number of occurrences, as `wordcount_less` sees them. */
  datatype WordCount = WordCount(word: seq<byte>, count: int)

  /** The byte `strcmp` reads first: the terminating NUL of an empty string. */
  function Head(a: seq<byte>): byte {
    if a == [] then 0 else a[0]
  }

  /** `strcmp`: the difference of the first bytes that differ, stopping at NUL. */
  function StrCmp(a: seq<byte>, b: seq<byte>): int
    decreases |a|
  {
    if a == [] || b == [] || a[0] != b[0] || a[0] == 0 then Head(a) - Head(b)
    else StrCmp(a[1..], b[1..])
  }

  /** A C string's contents: no NUL before the terminator. */
  predicate NoNul(a: seq<byte>) {
    forall i :: 0 <= i < |a| ==> a[i] != 0
  }

  /** Dictionary order: `a` is a proper prefix of `b`, or at the first position
      where they differ `a` has the smaller byte. */
  predicate DictLess(a: seq<byte>, b: seq<byte>) {
    exists k :: 0 <= k <= |a| && k <= |b| && a[..k] == b[..k] &&
      ((k == |a| && k < |b|) || (k < |a| && k < |b| && a[k] < b[k]))
  }

  lemma {:induction false} StrCmpSwap(a: seq<byte>, b: seq<byte>)
    ensures StrCmp(a, b) == -StrCmp(b, a)
    decreases |a|
  {
    if !(a == [] || b == [] || a[0] != b[0] || a[0] == 0) {
      StrCmpSwap(a[1..], b[1..]);
    }
  }

  lemma {:induction false} StrCmpZero(a: seq<byte>, b: seq<byte>)
    requires NoNul(a) && NoNul(b)
    ensures StrCmp(a, b) == 0 <==> a == b
    decreases |a|
  {
    if a != [] && b != [] && a[0] == b[0] {
      StrCmpZero(a[1..], b[1..]);
      if a[1..] == b[1..] {
        assert a == [a[0]] + a[1..] && b == [b[0]] + b[1..];
      }
    }
  }

  /** `strcmp` below zero is dictionary order on NUL-free strings. */
  lemma {:induction false} StrCmpIsDictLess(a: seq<byte>, b: seq<byte>)
    requires NoNul(a) && NoNul(b)
    ensures StrCmp(a, b) < 0 <==> DictLess(a, b)
    decreases |a|
  {
    if a == [] || b == [] {
      if StrCmp(a, b) < 0 {
        assert a[..0] == b[..0];
      }
    } else if a[0] != b[0] {
      if StrCmp(a, b) < 0 {
        assert a[..0] == b[..0];
      }
      if DictLess(a, b) {
        var k :| 0 <= k <= |a| && k <= |b| && a[..k] == b[..k] &&
          ((k == |a| && k < |b|) || (k < |a| && k < |b| && a[k] < b[k]));
        assert k > 0 ==> a[..k][0] == b[..k][0];
      }
    } else {
      StrCmpIsDictLess(a[1..], b[1..]);
      if DictLess(a[1..], b[1..]) {
        var k :| 0 <= k <= |a[1..]| && k <= |b[1..]| && a[1..][..k] == b[1..][..k] &&
          ((k == |a[1..]| && k < |b[1..]|) || (k < |a[1..]| && k < |b[1..]| && a[1..][k] < b[1..][k]));
        assert a[..k + 1] == [a[0]] + a[1..][..k];
        assert b[..k + 1] == [b[0]] + b[1..][..k];
      }
      if DictLess(a, b) {
        var k :| 0 <= k <= |a| && k <= |b| && a[..k] == b[..k] &&
          ((k == |a| && k < |b|) || (k < |a| && k < |b| && a[k] < b[k]));
        assert k > 0;
        assert a[1..][..k - 1] == a[..k][1..];
        assert b[1..][..k - 1] == b[..k][1..];
      }
    }
  }

  lemma {:induction false} StrCmpTrans(a: seq<byte>, b: seq<byte>, c: seq<byte>)
    requires StrCmp(a, b) < 0 && StrCmp(b, c) < 0
    ensures StrCmp(a, c) < 0
    decreases |a|
  {
    if a != [] && b != [] && c != [] && a[0] == b[0] == c[0] && a[0] != 0 {
      StrCmpTrans(a[1..], b[1..], c[1..]);
    }
  }

  /** `wordcount_less`: the smaller count first, equal counts in `strcmp` order. */
  function WordcountLess(x: WordCount, y: WordCount): (r: bool)
    ensures r ==> x.count <= y.count
    ensures x.count != y.count ==> (r <==> x.count < y.count)
  {
    if x.count < y.count then true
    else if x.count > y.count then false
    else StrCmp(x.word, y.word) < 0
  }

  /** On words without NUL bytes, the comparator is the lexicographic order on
      (count, word) with words in dictionary order. */
  lemma WordcountLessIsLexicographic(x: WordCount, y: WordCount)
    requires NoNul(x.word) && NoNul(y.word)
    ensures WordcountLess(x, y) <==>
      x.count < y.count || (x.count == y.count && DictLess(x.word, y.word))
  {
    StrCmpIsDictLess(x.word, y.word);
  }

  lemma WordcountLessIrreflexive(x: WordCount)
    ensures !WordcountLess(x, x)
  {
    StrCmpSwap(x.word, x.word);
  }

  lemma WordcountLessAsymmetric(x: WordCount, y: WordCount)
    requires WordcountLess(x, y)
    ensures !WordcountLess(y, x)
  {
    StrCmpSwap(x.word, y.word);
  }

  lemma WordcountLessTransitive(x: WordCount, y: WordCount, z: WordCount)
    requires WordcountLess(x, y) && WordcountLess(y, z)
    ensures WordcountLess(x, z)
  {
    if x.count == y.count == z.count {
      StrCmpTrans(x.word, y.word, z.word);
    }
  }

  /** Any two different entries are ordered one way or the other. */
  lemma WordcountLessTotal(x: WordCount, y: WordCount)
    requires NoNul(x.word) && NoNul(y.word) && x != y
    ensures WordcountLess(x, y) || WordcountLess(y, x)
  {
    StrCmpSwap(x.word, y.word);
    StrCmpZero(x.word, y.word);
  }
}
