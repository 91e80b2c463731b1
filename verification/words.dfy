/** Shared helpers of the model: words are strings of lower-case letters. */
module Words {

  /** The letters occurring in a word, i.e. Python's `set(w)`; never more than the word's length. */
  function Letters(w: string): (r: set<char>)
    ensures forall c :: c in r <==> c in w
    ensures |r| <= |w|
  {
    if |w| == 0 then {}
    else
      var rest := Letters(w[1..]);
      assert forall c :: c in w <==> c == w[0] || c in w[1..];
      {w[0]} + rest
  }

  /** No element occurs twice. */
  predicate NoDuplicates<T(==)>(s: seq<T>) {
    forall i, j :: 0 <= i < j < |s| ==> s[i] != s[j]
  }

  /** Every word of `words` has length `n`. */
  predicate AllOfLength(words: seq<string>, n: nat) {
    forall j :: 0 <= j < |words| ==> |words[j]| == n
  }
}
