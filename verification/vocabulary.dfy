/**
 * The offline vocabulary selection: keep the words whose length lies within
 * bounds and that use enough distinct letters, drop repeated words keeping the
 * first occurrence, and add a length column. The game then plays on the words
 * of one length.
 */
module Vocabulary {
  import opened Words

  /** One row of the selected table: the word's position in the filtered list, the word, its length. */
  datatype Row = Row(index: nat, word: string, length: nat)

  /** The selection predicate: bounded length and more than `minChars` distinct letters. */
  predicate Keep(w: string, minLen: int, maxLen: int, minChars: int)
    ensures Keep(w, minLen, maxLen, minChars) ==> minLen <= |w| <= maxLen
    ensures Keep(w, minLen, maxLen, minChars) ==> minChars < |w|
  {
    |w| >= minLen && |w| <= maxLen && |Letters(w)| > minChars
  }

  /** The words of `raw` that satisfy the selection predicate, in their order. */
  function Select(raw: seq<string>, minLen: int, maxLen: int, minChars: int): (r: seq<string>)
    ensures |r| <= |raw|
    ensures forall w :: w in r <==> w in raw && Keep(w, minLen, maxLen, minChars)
  {
    if |raw| == 0 then []
    else
      var rest := Select(raw[1..], minLen, maxLen, minChars);
      assert forall w :: w in raw <==> w == raw[0] || w in raw[1..];
      if Keep(raw[0], minLen, maxLen, minChars) then [raw[0]] + rest else rest
  }

  /** `ps` lists, in strictly increasing order, positions of `raw` holding the words of `sel`, rank by rank. */
  predicate Placed(ps: seq<nat>, raw: seq<string>, sel: seq<string>) {
    && |ps| == |sel|
    && (forall k :: 0 <= k < |ps| ==> ps[k] < |raw| && raw[ps[k]] == sel[k])
    && (forall k, l :: 0 <= k < l < |ps| ==> ps[k] < ps[l])
  }

  /**
   * The positions of `raw` that the selection keeps: strictly increasing, each
   * holding the selected word of the same rank, and every position whose word
   * meets the predicate among them. So the selection is the order-preserving
   * subsequence of `raw` made of the words that meet the predicate.
   */
  ghost function SelectedPositions(raw: seq<string>, minLen: int, maxLen: int, minChars: int): (ps: seq<nat>)
    ensures Placed(ps, raw, Select(raw, minLen, maxLen, minChars))
    ensures forall i :: 0 <= i < |raw| && Keep(raw[i], minLen, maxLen, minChars) ==> i in ps
  {
    if |raw| == 0 then []
    else
      var rest := SelectedPositions(raw[1..], minLen, maxLen, minChars);
      var ps := if Keep(raw[0], minLen, maxLen, minChars) then [0] + Shift(rest) else Shift(rest);
      PositionsStep(raw, rest, ps, minLen, maxLen, minChars);
      ps
  }

  /** The positions of the tail, moved up by one and led by 0 when `raw[0]` is kept, are those of `raw`. */
  lemma PositionsStep(raw: seq<string>, rest: seq<nat>, ps: seq<nat>, minLen: int, maxLen: int, minChars: int)
    requires |raw| > 0
    requires Placed(rest, raw[1..], Select(raw[1..], minLen, maxLen, minChars))
    requires forall i :: 0 <= i < |raw[1..]| && Keep(raw[1..][i], minLen, maxLen, minChars) ==> i in rest
    requires ps == if Keep(raw[0], minLen, maxLen, minChars) then [0] + Shift(rest) else Shift(rest)
    ensures Placed(ps, raw, Select(raw, minLen, maxLen, minChars))
    ensures forall i :: 0 <= i < |raw| && Keep(raw[i], minLen, maxLen, minChars) ==> i in ps
  {
    var sel := Select(raw[1..], minLen, maxLen, minChars);
    PlacedShift(raw, rest, sel);
    ShiftCovers(raw, rest, minLen, maxLen, minChars);
    if Keep(raw[0], minLen, maxLen, minChars) {
      assert Select(raw, minLen, maxLen, minChars) == [raw[0]] + sel;
      PlacedCons(raw, Shift(rest), sel);
      assert ps[0] == 0;
      forall i | 0 < i < |raw| && Keep(raw[i], minLen, maxLen, minChars) ensures i in ps {
        assert i in Shift(rest);
      }
    } else {
      assert Select(raw, minLen, maxLen, minChars) == sel;
    }
  }

  /** Every position moved up by one. */
  function Shift(ps: seq<nat>): seq<nat> {
    seq(|ps|, k requires 0 <= k < |ps| => ps[k] + 1)
  }

  /** Positions in the tail of `raw`, moved up by one, are positions in `raw`, none of them 0. */
  lemma PlacedShift(raw: seq<string>, ps: seq<nat>, sel: seq<string>)
    requires |raw| > 0 && Placed(ps, raw[1..], sel)
    ensures Placed(Shift(ps), raw, sel)
    ensures forall k :: 0 <= k < |ps| ==> Shift(ps)[k] > 0
  {
    forall k | 0 <= k < |ps| ensures raw[Shift(ps)[k]] == sel[k] {
      assert raw[1..][ps[k]] == raw[ps[k] + 1];
    }
  }

  /** Position 0 in front of positions that avoid it places `raw[0]` in front of their words. */
  lemma PlacedCons(raw: seq<string>, ps: seq<nat>, sel: seq<string>)
    requires |raw| > 0 && Placed(ps, raw, sel)
    requires forall k :: 0 <= k < |ps| ==> ps[k] > 0
    ensures Placed([0] + ps, raw, [raw[0]] + sel)
  {
    var ps', sel' := [0] + ps, [raw[0]] + sel;
    forall k | 0 < k < |ps'| ensures ps'[k] == ps[k - 1] && sel'[k] == sel[k - 1] {
    }
  }

  /** Every kept position of the tail, moved up by one, is among the shifted positions. */
  lemma ShiftCovers(raw: seq<string>, ps: seq<nat>, minLen: int, maxLen: int, minChars: int)
    requires |raw| > 0
    requires forall i :: 0 <= i < |raw| - 1 && Keep(raw[1..][i], minLen, maxLen, minChars) ==> i in ps
    ensures forall i :: 0 < i < |raw| && Keep(raw[i], minLen, maxLen, minChars) ==> i in Shift(ps)
  {
    forall i | 0 < i < |raw| && Keep(raw[i], minLen, maxLen, minChars) ensures i in Shift(ps) {
      assert raw[1..][i - 1] == raw[i];
      var k :| 0 <= k < |ps| && ps[k] == i - 1;
      assert Shift(ps)[k] == i;
    }
  }

  /** Position `i` holds the first occurrence of its word. */
  predicate FirstOccurrence(s: seq<string>, i: nat) {
    i < |s| && s[i] !in s[..i]
  }

  /** Every row points, below `bound`, at the first occurrence of its word and carries its length. */
  predicate WellIndexed(selected: seq<string>, rows: seq<Row>, bound: nat) {
    forall k :: 0 <= k < |rows| ==>
      && rows[k].index < bound
      && FirstOccurrence(selected, rows[k].index)
      && selected[rows[k].index] == rows[k].word
      && rows[k].length == |rows[k].word|
  }

  /** Rows are in strictly increasing position order. */
  predicate Increasing(rows: seq<Row>) {
    forall k, l :: 0 <= k < l < |rows| ==> rows[k].index < rows[l].index
  }

  /** Every first occurrence below `bound` has its row. */
  predicate CoversFirsts(selected: seq<string>, rows: seq<Row>, bound: nat) {
    forall i :: 0 <= i < bound && FirstOccurrence(selected, i) ==>
      exists k :: 0 <= k < |rows| && rows[k].index == i
  }

  /** Every word of `words` has a row. */
  predicate CoversWords(rows: seq<Row>, words: set<string>) {
    forall w :: w in words ==> exists k :: 0 <= k < |rows| && rows[k].word == w
  }

  /** The `word` column of a table. */
  function WordColumn(rows: seq<Row>): seq<string> {
    seq(|rows|, k requires 0 <= k < |rows| => rows[k].word)
  }

  /** Rows that point at first occurrences in increasing order never repeat a word. */
  lemma FirstOccurrencesAreDistinct(selected: seq<string>, rows: seq<Row>, bound: nat)
    requires WellIndexed(selected, rows, bound) && Increasing(rows)
    ensures NoDuplicates(WordColumn(rows))
  {
    forall k, l | 0 <= k < l < |rows| ensures WordColumn(rows)[k] != WordColumn(rows)[l] {
      var i, j := rows[k].index, rows[l].index;
      assert FirstOccurrence(selected, j);
      assert selected[..j][i] == selected[i];
    }
  }

  /** Appending the row of a fresh word at position `i` keeps the table invariants. */
  lemma AppendFresh(selected: seq<string>, rows: seq<Row>, seen: set<string>, i: nat)
    requires i < |selected|
    requires forall w :: w in seen <==> w in selected[..i]
    requires selected[i] !in seen
    requires WellIndexed(selected, rows, i) && Increasing(rows)
    requires CoversFirsts(selected, rows, i) && CoversWords(rows, seen)
    ensures var rows' := rows + [Row(i, selected[i], |selected[i]|)];
      && WellIndexed(selected, rows', i + 1) && Increasing(rows')
      && CoversFirsts(selected, rows', i + 1) && CoversWords(rows', seen + {selected[i]})
  {
    var rows' := rows + [Row(i, selected[i], |selected[i]|)];
    assert FirstOccurrence(selected, i);
    assert rows'[|rows|].index == i;
    forall i' | 0 <= i' < i + 1 && FirstOccurrence(selected, i')
      ensures exists k :: 0 <= k < |rows'| && rows'[k].index == i'
    {
      if i' < i {
        var k :| 0 <= k < |rows| && rows[k].index == i';
        assert rows'[k].index == i';
      }
    }
    forall w | w in seen + {selected[i]}
      ensures exists k :: 0 <= k < |rows'| && rows'[k].word == w
    {
      if w in seen {
        var k :| 0 <= k < |rows| && rows[k].word == w;
        assert rows'[k].word == w;
      } else {
        assert rows'[|rows|].word == w;
      }
    }
  }

  /** Skipping a word already seen keeps the table invariants. */
  lemma SkipSeen(selected: seq<string>, rows: seq<Row>, seen: set<string>, i: nat)
    requires i < |selected|
    requires forall w :: w in seen <==> w in selected[..i]
    requires selected[i] in seen
    requires WellIndexed(selected, rows, i) && CoversFirsts(selected, rows, i)
    ensures WellIndexed(selected, rows, i + 1) && CoversFirsts(selected, rows, i + 1)
  {
    assert !FirstOccurrence(selected, i);
  }

  /**
   * Order-preserving de-duplication with a length column: one row per distinct
   * word, at the position of its first occurrence, in order of those positions.
   */
  method Tabulate(selected: seq<string>) returns (rows: seq<Row>)
    ensures forall k :: 0 <= k < |rows| ==>
      && rows[k].index < |selected|
      && selected[rows[k].index] == rows[k].word
      && rows[k].word !in selected[..rows[k].index]
      && rows[k].length == |rows[k].word|
    ensures forall k, l :: 0 <= k < l < |rows| ==> rows[k].index < rows[l].index
    ensures forall i :: 0 <= i < |selected| && FirstOccurrence(selected, i) ==>
      exists k :: 0 <= k < |rows| && rows[k].index == i
    ensures NoDuplicates(WordColumn(rows))
    ensures forall w :: w in selected ==> exists k :: 0 <= k < |rows| && rows[k].word == w
  {
    rows := [];
    var seen: set<string> := {};
    var i := 0;
    while i < |selected|
      invariant 0 <= i <= |selected|
      invariant forall w :: w in seen <==> w in selected[..i]
      invariant WellIndexed(selected, rows, i) && Increasing(rows)
      invariant CoversFirsts(selected, rows, i) && CoversWords(rows, seen)
    {
      var w := selected[i];
      assert selected[..i + 1] == selected[..i] + [w];
      if w !in seen {
        AppendFresh(selected, rows, seen, i);
        rows := rows + [Row(i, w, |w|)];
        seen := seen + {w};
      } else {
        SkipSeen(selected, rows, seen, i);
      }
      i := i + 1;
    }
    assert selected[..i] == selected;
    FirstOccurrencesAreDistinct(selected, rows, i);
  }

  /** The whole selection: filter, then de-duplicate with a length column. */
  method Build(raw: seq<string>, minLen: int, maxLen: int, minChars: int) returns (rows: seq<Row>)
    ensures forall k :: 0 <= k < |rows| ==>
      && minLen <= rows[k].length <= maxLen
      && |Letters(rows[k].word)| > minChars
      && rows[k].length == |rows[k].word|
      && rows[k].word in raw
    ensures forall w :: w in raw && Keep(w, minLen, maxLen, minChars) ==>
      exists k :: 0 <= k < |rows| && rows[k].word == w
    ensures NoDuplicates(WordColumn(rows))
    ensures forall k :: 0 <= k < |rows| ==>
      && rows[k].index < |Select(raw, minLen, maxLen, minChars)|
      && FirstOccurrence(Select(raw, minLen, maxLen, minChars), rows[k].index)
      && Select(raw, minLen, maxLen, minChars)[rows[k].index] == rows[k].word
    ensures forall k, l :: 0 <= k < l < |rows| ==> rows[k].index < rows[l].index
    ensures forall i :: FirstOccurrence(Select(raw, minLen, maxLen, minChars), i) ==>
      exists k :: 0 <= k < |rows| && rows[k].index == i
  {
    var selected := Select(raw, minLen, maxLen, minChars);
    rows := Tabulate(selected);
    forall k | 0 <= k < |rows|
      ensures rows[k].word in selected
    {
      assert selected[rows[k].index] == rows[k].word;
    }
  }

  /** The game's vocabulary: the words of the table whose length column is `n`. */
  function WordsOfLength(rows: seq<Row>, n: nat): (words: seq<string>)
    ensures |words| <= |rows|
    ensures forall w :: w in words <==> exists k :: 0 <= k < |rows| && rows[k].length == n && rows[k].word == w
  {
    if |rows| == 0 then []
    else
      var rest := WordsOfLength(rows[1..], n);
      assert forall k :: 0 < k < |rows| ==> rows[k] == rows[1..][k - 1];
      if rows[0].length == n then [rows[0].word] + rest else rest
  }

  /**
   * A table whose length column is right yields a vocabulary of one length,
   * the precondition the game places on its vocabulary.
   */
  lemma VocabularyOfOneLength(rows: seq<Row>, n: nat)
    requires forall k :: 0 <= k < |rows| ==> rows[k].length == |rows[k].word|
    ensures AllOfLength(WordsOfLength(rows, n), n)
  {
    var words := WordsOfLength(rows, n);
    forall j | 0 <= j < |words| ensures |words[j]| == n {
      assert words[j] in words;
    }
  }
}
