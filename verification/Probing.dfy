/** The hash and the squaring probe of the open-addressed tables (webserver/server_thread.c:232-242,
    344-354; warmup/wc.c:78-88, 135-145): each slot tried is the square of the one before, modulo the
    table size. */
module Probing {
  import opened Lists

  const WORD := 0x1_0000_0000_0000_0000

  /** The characters of a string before its closing zero, as the signed values C reads them. */
  type Name = seq<int>

  /** The hash of a name: unsigned arithmetic wraps round. */
  function HashOf(name: Name): (h: nat)
    ensures h < WORD
  {
    if name == [] then 5381 else
      (HashOf(name[..|name| - 1]) * 32 + HashOf(name[..|name| - 1]) + name[|name| - 1]) % WORD
  }

  method Hash(name: Name) returns (h: nat)
    ensures h == HashOf(name)
  {
    h := 5381;
    var i := 0;
    while i < |name|
      invariant 0 <= i <= |name| && h == HashOf(name[..i])
    {
      assert name[..i + 1][..i] == name[..i];
      h := (h * 32 + h + name[i]) % WORD;
      i := i + 1;
    }
    assert name[..i] == name;
  }

  /** The i-th slot tried from slot k in a table of m. */
  function Probe(m: nat, k: nat, i: nat): (p: nat)
    requires k < m
    ensures p < m
  {
    if i == 0 then k else
      var q := Probe(m, k, i - 1);
      q * q % m
  }

  lemma {:induction false} DistinctBound(s: seq<nat>, m: nat)
    requires NoDup(s) && forall i | 0 <= i < |s| :: s[i] < m
    ensures |s| <= m
  {
    assert s != [] ==> s[0] < m;
    if m > 0 && m - 1 in s {
      var k :| 0 <= k < |s| && s[k] == m - 1;
      RemoveNoDup(s, k);
      var r := Removed(s, k);
      forall i | 0 <= i < |r| ensures r[i] < m - 1 {
        assert r[i] in r;
      }
      DistinctBound(r, m - 1);
    } else if m > 0 {
      forall i | 0 <= i < |s| ensures s[i] < m - 1 {
        assert s[i] in s;
      }
      DistinctBound(s, m - 1);
    }
  }

  /** From a repeated slot on the probe repeats itself. */
  lemma {:induction false} Repeats(m: nat, k: nat, a: nat, b: nat, d: nat)
    requires k < m && Probe(m, k, a) == Probe(m, k, b)
    ensures Probe(m, k, a + d) == Probe(m, k, b + d)
  {
    if d > 0 {
      Repeats(m, k, a, b, d - 1);
    }
  }

  /** Among the first m + 1 slots tried one comes twice. */
  lemma SomeRepeat(m: nat, k: nat) returns (a: nat, b: nat)
    requires k < m
    ensures a < b <= m && Probe(m, k, a) == Probe(m, k, b)
  {
    var s := seq(m + 1, i requires 0 <= i => Probe(m, k, i));
    if NoDup(s) {
      DistinctBound(s, m);
    }
    a, b :| 0 <= a < b < |s| && s[a] == s[b];
  }

  /** Every slot the probe ever tries is among the first m. */
  lemma {:induction false} Covered(m: nat, k: nat, i: nat) returns (j: nat)
    requires k < m
    ensures j < m && Probe(m, k, j) == Probe(m, k, i)
    decreases i
  {
    if i < m {
      return i;
    }
    var a, b := SomeRepeat(m, k);
    Repeats(m, k, a, b, i - b);
    j := Covered(m, k, a + (i - b));
  }
}
