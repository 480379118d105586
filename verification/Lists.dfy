/** Lists without repetition, kept by the thread queues and by the cache's recency list. */
module Lists {
  predicate NoDup<T(==)>(s: seq<T>) {
    forall i, j | 0 <= i < j < |s| :: s[i] != s[j]
  }

  /** The k-th element leaves the list. */
  function Removed<T>(list: seq<T>, k: nat): seq<T>
    requires k < |list|
  {
    list[..k] + list[k + 1..]
  }

  /** The position of t, or the length. */
  function Index(list: seq<int>, t: int): (k: nat)
    ensures k <= |list| && (k < |list| ==> list[k] == t) && forall i | 0 <= i < k :: list[i] != t
  {
    if list == [] then 0 else if list[0] == t then 0 else 1 + Index(list[1..], t)
  }

  lemma RemoveNoDup<T>(s: seq<T>, k: nat)
    requires NoDup(s) && k < |s|
    ensures NoDup(Removed(s, k))
    ensures forall t :: t in Removed(s, k) <==> t in s && t != s[k]
  {
    var r := Removed(s, k);
    forall t | t in s && t != s[k] ensures t in r {
      var i :| 0 <= i < |s| && s[i] == t;
      assert r[if i < k then i else i - 1] == t;
    }
  }

  lemma AppendNoDup<T>(s: seq<T>, t: T)
    requires NoDup(s) && t !in s
    ensures NoDup(s + [t])
  {
  }

  lemma JoinNoDup<T>(a: seq<T>, b: seq<T>)
    requires NoDup(a) && NoDup(b) && forall t | t in a :: t !in b
    ensures NoDup(a + b)
  {
    forall i, j | 0 <= i < j < |a + b| ensures (a + b)[i] != (a + b)[j] {
      if i < |a| <= j {
        assert a[i] in a && b[j - |a|] in b;
      }
    }
  }

  lemma PopNoDup<T>(s: seq<T>)
    requires NoDup(s) && s != []
    ensures NoDup(s[1..]) && s[0] !in s[1..] && forall t :: t in s <==> t == s[0] || t in s[1..]
  {
    assert s == [s[0]] + s[1..];
  }

  lemma IndexIs(list: seq<int>, t: int, k: nat)
    requires k <= |list| && (forall i: nat | i < k :: list[i] != t) && (k < |list| ==> list[k] == t)
    ensures Index(list, t) == k
  {
  }

  lemma IndexIn(list: seq<int>, t: int)
    ensures t in list <==> Index(list, t) < |list|
  {
    if t in list {
      var i :| 0 <= i < |list| && list[i] == t;
    }
  }

  lemma IndexOf(list: seq<int>, k: nat)
    requires NoDup(list) && k < |list|
    ensures Index(list, list[k]) == k
  {
  }
}
