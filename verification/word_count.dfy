/**
 * The sentinel-headed word list of the `words` program (hw0/words/word_count.c).
 * The list is the sequence of nodes in `next` order from the head; `init_words`
 * makes the head a sentinel with a NULL word and count 0, and `add_word` puts new
 * words directly after the head. Words are compared with `strcmp`.
 */
module WordList {
  import opened Wrappers
  import opened Ints
  import opened MaximalRuns
  import opened WordScan
  import opened Tally

  /** A `WordCount` node; `word` is None for NULL. */
  datatype Node = Node(word: Option<seq<byte>>, count: int)

  const SENTINEL: Node := Node(None, 0)

  /** `strcmp(node->word, word) == 0` on a node with a non-NULL word. */
  predicate Matches(n: Node, w: seq<byte>) {
    n.word.Some? && StrCmp(n.word.value, w) == 0
  }

  /** The lists `init_words` and `add_word` build: the sentinel first, then
      distinct NUL-free words. */
  predicate Valid(l: seq<Node>) {
    && |l| >= 1
    && l[0] == SENTINEL
    && (forall i :: 1 <= i < |l| ==> l[i].word.Some? && NoNul(l[i].word.value))
    && (forall i, j :: 1 <= i < j < |l| ==> l[i].word != l[j].word)
  }

  /** The count the list records for `w`. */
  function CountOf(l: seq<Node>, w: seq<byte>): int {
    Sum(l, (n: Node) => if n.word == Some(w) then n.count else 0)
  }

  /** The sum of all counts. */
  function Total(l: seq<Node>): int {
    Sum(l, (n: Node) => n.count)
  }

  /** `init_words`: a list holding only the sentinel. */
  function InitWords(): (l: seq<Node>)
    ensures Valid(l) && |l| == 1
  {
    [SENTINEL]
  }

  /** The fresh list records no word and a total of 0. */
  lemma InitWordsEmpty()
    ensures Total(InitWords()) == 0
    ensures forall w :: CountOf(InitWords(), w) == 0
  {
    SumOne(SENTINEL, (n: Node) => n.count);
    forall w
      ensures CountOf(InitWords(), w) == 0
    {
      SumOne(SENTINEL, (n: Node) => if n.word == Some(w) then n.count else 0);
    }
  }

  /** `find_word`: the first node whose word is non-NULL and equal to `w`; None
      for the NULL the source returns at the end of the list. */
  function FindWord(l: seq<Node>, w: seq<byte>): (r: Option<nat>)
    ensures r.Some? ==> r.value < |l| && Matches(l[r.value], w)
    ensures r.Some? ==> forall j :: 0 <= j < r.value ==> !Matches(l[j], w)
    ensures r.None? ==> forall j :: 0 <= j < |l| ==> !Matches(l[j], w)
  {
    FindFrom(l, (n: Node) => Matches(n, w), 0)
  }

  /** On a valid list and a NUL-free word, `find_word` finds exactly the node
      holding that word, and never the sentinel. */
  lemma FindWordExact(l: seq<Node>, w: seq<byte>)
    requires Valid(l) && NoNul(w)
    ensures FindWord(l, w).Some? <==> exists i :: 1 <= i < |l| && l[i].word == Some(w)
    ensures FindWord(l, w).Some? ==> 1 <= FindWord(l, w).value && l[FindWord(l, w).value].word == Some(w)
  {
    var r := FindWord(l, w);
    if r.Some? {
      StrCmpZero(l[r.value].word.value, w);
    } else {
      forall i | 1 <= i < |l|
        ensures l[i].word != Some(w)
      {
        StrCmpZero(l[i].word.value, w);
      }
    }
  }

  /**
   * `add_word`: a word already present has its node's count raised by one;
   * otherwise a node with a copy of the word and count 1 goes right after the
   * head. The caller's `*wclist` must be a list, as `init_words` makes it.
   */
  function AddWord(l: seq<Node>, w: seq<byte>): (r: seq<Node>)
    requires |l| >= 1
    ensures |r| == |l| + (if FindWord(l, w).Some? then 0 else 1)
    ensures FindWord(l, w).Some? ==> forall j :: 0 <= j < |l| && j != FindWord(l, w).value ==> r[j] == l[j]
    ensures FindWord(l, w).Some? ==> r[FindWord(l, w).value].count == l[FindWord(l, w).value].count + 1
    ensures FindWord(l, w).None? ==> r == [l[0], Node(Some(w), 1)] + l[1..]
  {
    match FindWord(l, w)
    case Some(i) => l[i := l[i].(count := l[i].count + 1)]
    case None => [l[0], Node(Some(w), 1)] + l[1..]
  }

  /**
   * On a valid list, `add_word` keeps the list valid (the sentinel first, no
   * word twice), raises the recorded count of `w` by one and leaves every other
   * word's count alone; the sum of all counts grows by exactly one, and
   * `find_word` finds `w` afterwards.
   */
  lemma AddWordCounts(l: seq<Node>, w: seq<byte>)
    requires Valid(l) && NoNul(w)
    ensures Valid(AddWord(l, w))
    ensures forall v :: CountOf(AddWord(l, w), v) == CountOf(l, v) + (if v == w then 1 else 0)
    ensures Total(AddWord(l, w)) == Total(l) + 1
    ensures FindWord(AddWord(l, w), w).Some?
  {
    var r := AddWord(l, w);
    FindWordExact(l, w);
    match FindWord(l, w)
    case Some(i) =>
      var n := l[i].(count := l[i].count + 1);
      assert r == l[i := n];
      SumUpdate(l, i, n, (n: Node) => n.count);
      forall v
        ensures CountOf(r, v) == CountOf(l, v) + (if v == w then 1 else 0)
      {
        SumUpdate(l, i, n, (n: Node) => if n.word == Some(v) then n.count else 0);
      }
      FindWordExact(r, w);
    case None =>
      var n := Node(Some(w), 1);
      assert r == l[..1] + [n] + l[1..];
      SumInsert(l, 1, n, (n: Node) => n.count);
      forall v
        ensures CountOf(r, v) == CountOf(l, v) + (if v == w then 1 else 0)
      {
        SumInsert(l, 1, n, (n: Node) => if n.word == Some(v) then n.count else 0);
      }
      assert r[1] == n;
      FindWordExact(r, w);
  }

  /** The list after `add_word` of each word in turn. */
  function AddAll(l: seq<Node>, ws: seq<seq<byte>>): (r: seq<Node>)
    requires |l| >= 1
    ensures |r| >= 1
    decreases |ws|
  {
    if ws == [] then l else AddAll(AddWord(l, ws[0]), ws[1..])
  }

  /** After `add_word` of each of `ws`, the list records for every word the
      number of times it occurs in `ws`. */
  lemma {:induction false} AddAllCounts(l: seq<Node>, ws: seq<seq<byte>>)
    requires Valid(l) && forall j :: 0 <= j < |ws| ==> NoNul(ws[j])
    ensures Valid(AddAll(l, ws))
    ensures forall v :: CountOf(AddAll(l, ws), v) == CountOf(l, v) + multiset(ws)[v]
    ensures Total(AddAll(l, ws)) == Total(l) + |ws|
    decreases |ws|
  {
    if ws != [] {
      var m := AddWord(l, ws[0]);
      AddWordCounts(l, ws[0]);
      AddAllCounts(m, ws[1..]);
      assert ws == [ws[0]] + ws[1..];
      assert AddAll(l, ws) == AddAll(m, ws[1..]);
      forall v
        ensures CountOf(AddAll(l, ws), v) == CountOf(l, v) + multiset(ws)[v]
      {
        assert multiset(ws)[v] == multiset(ws[1..])[v] + (if v == ws[0] then 1 else 0);
      }
    }
  }

  /** Counting the words of an input from a fresh list: every word's count is
      its number of occurrences, and the counts add up to `num_words`. */
  lemma CountInput(s: seq<byte>)
    ensures var l := AddAll(InitWords(), Words(s));
      && Valid(l)
      && (forall v :: CountOf(l, v) == multiset(Words(s))[v])
      && Total(l) == |Words(s)|
  {
    WordsShape(s);
    forall j | 0 <= j < |Words(s)|
      ensures NoNul(Words(s)[j])
    {
      assert AllIn(Words(s)[j], IsLowerLetter);
    }
    AddAllCounts(InitWords(), Words(s));
    InitWordsEmpty();
  }

  // ---------------------------------------------------------------------------
  // len_words
  // ---------------------------------------------------------------------------

  /** `len_words` as written: it steps along the list while the node's word is
      NULL and counts the steps, so it returns the number of leading nodes without
      a word. Stepping past the last node reads a word through NULL, which is
      `None` here. */
  function LenWordsAsWritten(l: seq<Node>): (r: Option<nat>)
    ensures r.Some? <==> exists i :: 0 <= i < |l| && l[i].word.Some?
    ensures r.Some? ==> r.value < |l| && l[r.value].word.Some?
    ensures r.Some? ==> forall j :: 0 <= j < r.value ==> l[j].word.None?
  {
    if l == [] then None
    else if l[0].word.Some? then Some(0)
    else match LenWordsAsWritten(l[1..])
      case None => None
      case Some(n) => Some(n + 1)
  }

  /** The count `len_words` evidently means: the nodes that hold a word. */
  function LenWords(l: seq<Node>): (len: nat)
    ensures len <= |l|
  {
    if l == [] then 0 else (if l[0].word.Some? then 1 else 0) + LenWords(l[1..])
  }

  /** On the lists `init_words` and `add_word` build, the intended count is the
      number of words: every node but the sentinel. */
  lemma {:induction false} LenWordsCountsWords(l: seq<Node>)
    requires Valid(l)
    ensures LenWords(l) == |l| - 1
  {
    assert LenWords(l) == LenWords(l[1..]);
    AllWords(l[1..]);
  }

  lemma {:induction false} AllWords(l: seq<Node>)
    requires forall i :: 0 <= i < |l| ==> l[i].word.Some?
    ensures LenWords(l) == |l|
  {
    if l != [] {
      AllWords(l[1..]);
    }
  }

  /** As written, `len_words` on such a list stops at the first word: 1 whenever
      the list holds a word, and a NULL dereference on the bare sentinel. */
  lemma LenWordsAsWrittenStopsEarly(l: seq<Node>)
    requires Valid(l)
    ensures |l| == 1 ==> LenWordsAsWritten(l).None?
    ensures |l| >= 2 ==> LenWordsAsWritten(l) == Some(1)
  {
    if |l| >= 2 {
      assert l[1..][0] == l[1];
    }
  }

  /** Two words: `len_words` answers 1 where the list holds 2. */
  lemma LenWordsTwoWords()
    ensures var l := [SENTINEL, Node(Some([97, 98]), 1), Node(Some([99, 100]), 1)];
      && Valid(l) && LenWordsAsWritten(l) == Some(1) && LenWords(l) == 2
  {
    var l := [SENTINEL, Node(Some([97, 98]), 1), Node(Some([99, 100]), 1)];
    LenWordsAsWrittenStopsEarly(l);
    LenWordsCountsWords(l);
  }
}
