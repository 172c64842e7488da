/** Lists of keys without repeats, as the policies keep them: taking one key out. */
module KeyLists {
  import opened Basics

  function Without(s: seq<Key>, k: Key): seq<Key> {
    if s == [] then [] else if s[0] == k then Without(s[1..], k) else [s[0]] + Without(s[1..], k)
  }

  lemma {:induction false} WithoutKeeps(s: seq<Key>, k: Key)
    requires forall i, j :: 0 <= i < j < |s| ==> s[i] != s[j]
    ensures var w := Without(s, k);
            && |w| == |s| - (if k in s then 1 else 0)
            && (forall i, j :: 0 <= i < j < |w| ==> w[i] != w[j])
            && (forall j :: j in w <==> j in s && j != k)
  {
    if s != [] {
      WithoutKeeps(s[1..], k);
      assert forall j :: j in s <==> j == s[0] || j in s[1..];
      if s[0] != k {
        var w, rest := Without(s, k), Without(s[1..], k);
        assert forall j :: j in w <==> j == s[0] || j in rest;
        forall i | 1 <= i < |w| ensures w[i] != s[0] {
          assert w[i] in rest;
        }
      } else {
        assert s[0] !in s[1..];
      }
    }
  }

  lemma {:induction false} WithoutLast(s: seq<Key>)
    requires forall i, j :: 0 <= i < j < |s| ==> s[i] != s[j]
    requires s != []
    ensures Without(s, s[|s| - 1]) == s[..|s| - 1]
  {
    if |s| > 1 {
      WithoutLast(s[1..]);
      assert s[..|s| - 1] == [s[0]] + s[1..][..|s| - 2];
    }
  }

  lemma {:induction false} WithoutAt(s: seq<Key>, i: nat)
    requires i < |s| && forall i, j :: 0 <= i < j < |s| ==> s[i] != s[j]
    ensures Without(s, s[i]) == s[..i] + s[i + 1..]
  {
    if i == 0 {
      assert s[0] !in s[1..];
      WithoutAbsent(s[1..], s[0]);
    } else {
      WithoutAt(s[1..], i - 1);
      assert s[..i] + s[i + 1..] == [s[0]] + (s[1..][..i - 1] + s[1..][i..]);
    }
  }

  lemma {:induction false} WithoutAbsent(s: seq<Key>, k: Key)
    requires k !in s
    ensures Without(s, k) == s
  {
    if s != [] {
      assert s == [s[0]] + s[1..];
      WithoutAbsent(s[1..], k);
    }
  }

  function KeySet(s: seq<Key>): set<Key> {
    set k | k in s
  }

  lemma {:induction false} KeySetSize(s: seq<Key>)
    requires forall i, j :: 0 <= i < j < |s| ==> s[i] != s[j]
    ensures |KeySet(s)| == |s|
  {
    if s != [] {
      var rest := s[1..];
      KeySetSize(rest);
      assert s == [s[0]] + rest;
      assert s[0] !in rest;
      assert KeySet(s) == {s[0]} + KeySet(rest);
    }
  }
}
