/** Small facts about sequences that several modules use. */
module SeqLemmas {

  function RemoveAt<T>(s: seq<T>, i: nat): (r: seq<T>)
    requires i < |s|
    ensures |r| == |s| - 1
    ensures forall k :: 0 <= k < i ==> r[k] == s[k]
    ensures forall k :: i <= k < |r| ==> r[k] == s[k + 1]
  {
    s[..i] + s[i + 1..]
  }

  ghost function Elems<T>(s: seq<T>): set<T> { set x | x in s }

  ghost predicate NoDup<T>(s: seq<T>)
  {
    forall i, j :: 0 <= i < j < |s| ==> s[i] != s[j]
  }

  lemma RemoveElems<T>(s: seq<T>, i: nat)
    requires i < |s| && NoDup(s)
    ensures NoDup(RemoveAt(s, i)) && Elems(RemoveAt(s, i)) == Elems(s) - {s[i]}
  {
    var r := RemoveAt(s, i);
    forall x | x in Elems(s) - {s[i]} ensures x in Elems(r) {
      var k :| 0 <= k < |s| && s[k] == x;
      assert r[if k < i then k else k - 1] == x;
    }
  }

  lemma PrependElems<T>(x: T, s: seq<T>)
    requires NoDup(s) && x !in s
    ensures NoDup([x] + s) && Elems([x] + s) == Elems(s) + {x}
  {
  }

  lemma UpdateElems<T>(s: seq<T>, i: nat, x: T)
    requires i < |s| && NoDup(s) && (x !in s || x == s[i])
    ensures NoDup(s[i := x]) && Elems(s[i := x]) == Elems(s) - {s[i]} + {x}
  {
    forall y | y in Elems(s) - {s[i]} ensures y in Elems(s[i := x]) {
      var k :| 0 <= k < |s| && s[k] == y;
      assert s[i := x][k] == y;
    }
    assert s[i := x][i] == x;
  }

  lemma OnlyElement<T>(s: seq<T>, x: T)
    requires NoDup(s) && Elems(s) == {x}
    ensures s == [x]
  {
    assert x in Elems(s);
    var last := |s| - 1;
    assert s[0] in Elems(s) && s[last] in Elems(s);
    assert last == 0;
  }
}
