/** Small facts about sets and sequences. */
module Collections {
  function Elements<T(==)>(s: seq<T>): set<T> {
    set x | x in s
  }

  predicate Distinct<T(==)>(s: seq<T>) {
    forall i, j :: 0 <= i < j < |s| ==> s[i] != s[j]
  }

  lemma SubsetSize<T>(a: set<T>, b: set<T>)
    requires a <= b
    ensures |a| <= |b|
  {
    assert b == a + (b - a);
  }

  /** Two texts joined by a separator that the first does not contain can be told apart again. */
  lemma FirstSeparator(sep: char, x: string, y: string, x': string, y': string)
    requires sep !in x && sep !in x' && x + [sep] + y == x' + [sep] + y'
    ensures x == x' && y == y'
  {
    var s := x + [sep] + y;
    assert s[|x|] == sep && s[|x'|] == sep;
    forall i | 0 <= i < |x| ensures s[i] != sep { assert s[i] == x[i]; }
    forall i | 0 <= i < |x'| ensures s[i] != sep { assert s[i] == x'[i]; }
    assert |x| == |x'|;
    assert s[..|x|] == x && s[..|x'|] == x';
    assert s[|x| + 1..] == y && s[|x'| + 1..] == y';
  }
}
