/**
 * The Pintos-list word counter of the threaded `pwords` program
 * (hw2/word_count_p.c). The list is the sequence of `word_count_t` entries from
 * `list_begin` to `list_end`; `add_word` looks the word up and inserts or
 * increments while holding the list's lock, so each call is one atomic step of
 * the list, whatever the threads calling it. `malloc` success is a parameter.
 */
module LockedWordList {
  import opened Wrappers
  import opened Ints
  import opened WordScan
  import opened Tally

  /** `strcmp(word, wc->word) == 0`. */
  predicate Matches(e: WordCount, w: seq<byte>) {
    StrCmp(w, e.word) == 0
  }

  /** The lists `add_word` builds from NUL-free words: no word twice. */
  predicate Valid(l: seq<WordCount>) {
    && (forall i :: 0 <= i < |l| ==> NoNul(l[i].word))
    && (forall i, j :: 0 <= i < j < |l| ==> l[i].word != l[j].word)
  }

  /** The count the list records for `w`. */
  function CountOf(l: seq<WordCount>, w: seq<byte>): int {
    Sum(l, (e: WordCount) => if e.word == w then e.count else 0)
  }

  /** `init_words`: `list_init` leaves the list empty. */
  function InitWords(): (l: seq<WordCount>)
    ensures Valid(l) && |l| == 0
  {
    []
  }

  /** `len_words`: one for each element from `list_begin` up to `list_end`. */
  function LenWords(l: seq<WordCount>): (len: nat)
    ensures len == |l|
  {
    if l == [] then 0 else 1 + LenWords(l[1..])
  }

  /** `find_word`: the first entry from the front whose word equals `w`, or None
      for NULL. */
  function FindWord(l: seq<WordCount>, w: seq<byte>): (r: Option<nat>)
    ensures r.Some? ==> r.value < |l| && Matches(l[r.value], w)
    ensures r.Some? ==> forall j :: 0 <= j < r.value ==> !Matches(l[j], w)
    ensures r.None? ==> forall j :: 0 <= j < |l| ==> !Matches(l[j], w)
  {
    FindFrom(l, (e: WordCount) => Matches(e, w), 0)
  }

  /** On a valid list and a NUL-free word, `find_word` finds exactly the entry
      holding that word. */
  lemma FindWordExact(l: seq<WordCount>, w: seq<byte>)
    requires Valid(l) && NoNul(w)
    ensures FindWord(l, w).Some? <==> exists i :: 0 <= i < |l| && l[i].word == w
    ensures FindWord(l, w).Some? ==> l[FindWord(l, w).value].word == w
  {
    var r := FindWord(l, w);
    if r.Some? {
      StrCmpZero(w, l[r.value].word);
    } else {
      forall i | 0 <= i < |l|
        ensures l[i].word != w
      {
        StrCmpZero(w, l[i].word);
      }
    }
  }

  /** The list after `add_word`, and the entry it returns (None for NULL). */
  datatype Added = Added(list: seq<WordCount>, entry: Option<nat>)

  /**
   * `add_word`, done as one step under the lock: a present word has its count
   * raised by one and its entry returned; an absent one gets a new entry with
   * count 1 pushed at the front, holding the caller's word; when `malloc` fails
   * the list is left as it was and NULL is returned.
   */
  function AddWord(l: seq<WordCount>, w: seq<byte>, mallocOk: bool): (r: Added)
    ensures r.entry.None? <==> FindWord(l, w).None? && !mallocOk
    ensures r.entry.None? ==> r.list == l
    ensures FindWord(l, w).Some? ==> r.entry == FindWord(l, w) && |r.list| == |l|
    ensures FindWord(l, w).Some? ==>
      r.list[r.entry.value] == l[r.entry.value].(count := l[r.entry.value].count + 1)
    ensures FindWord(l, w).Some? ==>
      forall j :: 0 <= j < |l| && j != r.entry.value ==> r.list[j] == l[j]
    ensures FindWord(l, w).None? && mallocOk ==>
      r.entry == Some(0) && r.list == [WordCount(w, 1)] + l
  {
    match FindWord(l, w)
    case Some(i) => Added(l[i := l[i].(count := l[i].count + 1)], Some(i))
    case None =>
      if mallocOk then Added([WordCount(w, 1)] + l, Some(0))
      else Added(l, None)
  }

  /**
   * On a valid list and a NUL-free word, `add_word` keeps every word unique,
   * returns an entry holding `w` unless it returns NULL, and raises the count of
   * `w` by one exactly when it does not return NULL; no other count changes.
   */
  lemma AddWordCounts(l: seq<WordCount>, w: seq<byte>, mallocOk: bool)
    requires Valid(l) && NoNul(w)
    ensures var r := AddWord(l, w, mallocOk);
      && Valid(r.list)
      && (r.entry.Some? ==> r.entry.value < |r.list| && r.list[r.entry.value].word == w)
      && forall v :: CountOf(r.list, v) == CountOf(l, v) + (if v == w && r.entry.Some? then 1 else 0)
  {
    var r := AddWord(l, w, mallocOk);
    FindWordExact(l, w);
    match FindWord(l, w)
    case Some(i) =>
      var e := l[i].(count := l[i].count + 1);
      forall v
        ensures CountOf(r.list, v) == CountOf(l, v) + (if v == w then 1 else 0)
      {
        SumUpdate(l, i, e, (e: WordCount) => if e.word == v then e.count else 0);
      }
    case None =>
      if mallocOk {
        var e := WordCount(w, 1);
        assert r.list == l[..0] + [e] + l[0..];
        forall v
          ensures CountOf(r.list, v) == CountOf(l, v) + (if v == w then 1 else 0)
        {
          SumInsert(l, 0, e, (e: WordCount) => if e.word == v then e.count else 0);
        }
      }
  }

  /** The list after the `add_word` calls of `ws` in the order the lock admits
      them, with `malloc` succeeding. */
  function AddAll(l: seq<WordCount>, ws: seq<seq<byte>>): seq<WordCount>
    decreases |ws|
  {
    if ws == [] then l else AddAll(AddWord(l, ws[0], true).list, ws[1..])
  }

  /** After the calls of `ws`, in whatever order, every word's count has grown by
      its number of occurrences in `ws`. */
  lemma {:induction false} AddAllCounts(l: seq<WordCount>, ws: seq<seq<byte>>)
    requires Valid(l) && forall j :: 0 <= j < |ws| ==> NoNul(ws[j])
    ensures Valid(AddAll(l, ws))
    ensures forall v :: CountOf(AddAll(l, ws), v) == CountOf(l, v) + multiset(ws)[v]
    decreases |ws|
  {
    if ws != [] {
      var m := AddWord(l, ws[0], true).list;
      AddWordCounts(l, ws[0], true);
      AddAllCounts(m, ws[1..]);
      assert ws == [ws[0]] + ws[1..];
      assert AddAll(l, ws) == AddAll(m, ws[1..]);
      forall v
        ensures CountOf(AddAll(l, ws), v) == CountOf(l, v) + multiset(ws)[v]
      {
        assert multiset(ws)[v] == multiset(ws[1..])[v] + (if v == ws[0] then 1 else 0);
      }
    }
  }

  /** Since each call is atomic, two threads' interleavings that make the same
      calls leave the same count for every word. */
  lemma InterleavingIrrelevant(l: seq<WordCount>, xs: seq<seq<byte>>, ys: seq<seq<byte>>)
    requires Valid(l) && forall j :: 0 <= j < |xs| ==> NoNul(xs[j])
    requires multiset(xs) == multiset(ys)
    ensures forall v :: CountOf(AddAll(l, xs), v) == CountOf(AddAll(l, ys), v)
  {
    AddAllCounts(l, xs);
    forall j | 0 <= j < |ys|
      ensures NoNul(ys[j])
    {
      assert ys[j] in multiset(xs);
    }
    AddAllCounts(l, ys);
  }
}
