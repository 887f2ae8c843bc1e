/** Keeping a sequence in descending order of a key (the `ORDER BY ... DESC` of the store). */
module Sorting {

  ghost predicate DescendingBy<T>(s: seq<T>, key: T -> int)
  {
    forall i, j :: 0 <= i < j < |s| ==> key(s[i]) >= key(s[j])
  }

  lemma ConsDescending<T>(h: T, s: seq<T>, key: T -> int)
    requires DescendingBy(s, key)
    requires forall i :: 0 <= i < |s| ==> key(s[i]) <= key(h)
    ensures DescendingBy([h] + s, key)
  {
    var r := [h] + s;
    forall i, j | 0 <= i < j < |r| ensures key(r[i]) >= key(r[j]) {
      assert r[j] == s[j - 1];
      if i > 0 { assert r[i] == s[i - 1]; }
    }
  }

  /** Places `x` after every element whose key is no smaller than its own. */
  function InsertDescending<T>(s: seq<T>, x: T, key: T -> int): (r: seq<T>)
    requires DescendingBy(s, key)
    ensures |r| == |s| + 1
    ensures multiset(r) == multiset(s) + multiset{x}
    ensures r[0] == if s != [] && key(s[0]) >= key(x) then s[0] else x
    ensures DescendingBy(r, key)
  {
    if s == [] then [x]
    else if key(s[0]) >= key(x) then
      var rest := InsertDescending(s[1..], x, key);
      assert s == [s[0]] + s[1..];
      assert forall i :: 0 <= i < |rest| ==> key(rest[i]) <= key(rest[0]);
      ConsDescending(s[0], rest, key);
      [s[0]] + rest
    else
      ConsDescending(x, s, key);
      [x] + s
  }

  /** The elements after an insertion are those before it and the inserted one. */
  lemma InsertMembers<T>(s: seq<T>, x: T, key: T -> int)
    requires DescendingBy(s, key)
    ensures forall e :: e in InsertDescending(s, x, key) <==> e in s || e == x
  {
    var r := InsertDescending(s, x, key);
    forall e ensures e in r <==> e in s || e == x {
      assert e in r <==> e in multiset(r);
      assert e in s <==> e in multiset(s);
    }
  }
}
