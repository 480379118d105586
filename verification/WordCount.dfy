/** The word counter (warmup/wc.c:29-103): a scanner over the text, and an open-addressed table of words. */
module WordCounts {
  import opened Probing

  const BUFFER := 500

  datatype Slot = Empty | Full(word: Name, count: nat)

  /** isspace */
  predicate IsSpace(c: int) {
    c == 32 || 9 <= c <= 13
  }

  /** The word the text ends in, before any white space has ended it. */
  function Pending(text: seq<int>): Name {
    if text == [] || IsSpace(text[|text| - 1]) then [] else Pending(text[..|text| - 1]) + [text[|text| - 1]]
  }

  /** The words of the text that white space ends. */
  function Words(text: seq<int>): seq<Name> {
    if text == [] then []
    else
      var front := text[..|text| - 1];
      if IsSpace(text[|text| - 1]) && Pending(front) != [] then Words(front) + [Pending(front)] else Words(front)
  }

  /** The first n characters of the text are stretches without white space, in order and none but the last
      empty, the i-th from starts[i] to ends[i]; what comes before the first, and from the end of each to the
      next, is white space, at least one character of it. */
  predicate Splits(text: seq<int>, n: nat, starts: seq<nat>, ends: seq<nat>) {
    && n <= |text| && |starts| == |ends| > 0 && ends[|ends| - 1] == n
    && (forall i | 0 <= i < |starts| :: starts[i] <= ends[i] <= n && (i < |starts| - 1 ==> starts[i] < ends[i]))
    && (forall i, j | 0 <= i < j < |starts| :: ends[i] < starts[j])
    && (forall i, k | 0 <= i < |starts| && starts[i] <= k < ends[i] :: text[k] != 32 && !(9 <= text[k] <= 13))
    && (forall k | 0 <= k < starts[0] :: text[k] == 32 || 9 <= text[k] <= 13)
    && (forall i, j, k | 0 <= i < j < |starts| && j <= i + 1 && ends[i] <= k < starts[j] ::
          text[k] == 32 || 9 <= text[k] <= 13)
  }

  /** The pieces are the stretches of the text from starts[i] to ends[i]. */
  predicate Cut(text: seq<int>, starts: seq<nat>, ends: seq<nat>, pieces: seq<Name>) {
    && |starts| == |ends| == |pieces|
    && forall i | 0 <= i < |pieces| :: starts[i] <= ends[i] <= |text| && pieces[i] == text[starts[i]..ends[i]]
  }

  /** The words of the first n characters of any text, and after them the one still pending, are the
      stretches without white space. */
  lemma {:induction false} WordsAre(text: seq<int>, n: nat) returns (starts: seq<nat>, ends: seq<nat>)
    requires n <= |text|
    ensures Splits(text, n, starts, ends)
    ensures Cut(text, starts, ends, Words(text[..n]) + [Pending(text[..n])])
  {
    if n == 0 {
      SplitsNone(text);
      return [0], [0];
    }
    hide Splits, Cut, Words, Pending;
    starts, ends := WordsAre(text, n - 1);
    WordsGrow(text, n - 1);
    var words, now := Words(text[..n - 1]), Pending(text[..n - 1]);
    var last := |words|;
    Lengths(text, n - 1, starts, ends, words + [now]);
    CutSame(text, n - 1, starts, ends, words, now);
    SplitsSame(text, n - 1, starts, ends);
    if !IsSpace(text[n - 1]) {
      ends := ends[last := n];
    } else if now != [] {
      SplitsNext(text, n - 1, starts, ends);
      starts, ends := starts + [n], ends + [n];
    } else {
      starts, ends := starts[last := n], ends[last := n];
    }
  }

  lemma SplitsNone(text: seq<int>)
    ensures Splits(text, 0, [0], [0]) && Cut(text, [0], [0], Words(text[..0]) + [Pending(text[..0])])
  {
  }

  lemma Lengths(text: seq<int>, n: nat, starts: seq<nat>, ends: seq<nat>, pieces: seq<Name>)
    requires Splits(text, n, starts, ends) && Cut(text, starts, ends, pieces)
    ensures |starts| == |ends| == |pieces| > 0
    ensures var last := |pieces| - 1; ends[last] == n && pieces[last] == text[starts[last]..n]
  {
  }

  lemma CutSame(text: seq<int>, n: nat, starts: seq<nat>, ends: seq<nat>, words: seq<Name>, now: Name)
    requires Cut(text, starts, ends, words + [now]) && n < |text| && ends[|words|] == n
    ensures Cut(text, starts, ends[|words| := n + 1], words + [now + [text[n]]])
    ensures Cut(text, starts + [n + 1], ends + [n + 1], words + [now] + [[]])
    ensures now == [] ==> Cut(text, starts[|words| := n + 1], ends[|words| := n + 1], words + [now])
    ensures now == text[starts[|words|]..n]
  {
    var last := |words|;
    assert (words + [now])[last] == now && forall i | 0 <= i < last :: (words + [now])[i] == words[i];
    assert text[starts[last]..n + 1] == text[starts[last]..n] + [text[n]];
  }

  /** One more character without ending a word. */
  lemma SplitsSame(text: seq<int>, n: nat, starts: seq<nat>, ends: seq<nat>)
    requires Splits(text, n, starts, ends) && n < |text|
    ensures var last := |starts| - 1;
      && (!IsSpace(text[n]) ==> Splits(text, n + 1, starts, ends[last := n + 1]))
      && (IsSpace(text[n]) && starts[last] == n ==> Splits(text, n + 1, starts[last := n + 1], ends[last := n + 1]))
  {
  }

  /** White space ends a word. */
  lemma SplitsNext(text: seq<int>, n: nat, starts: seq<nat>, ends: seq<nat>)
    requires Splits(text, n, starts, ends) && n < |text| && IsSpace(text[n]) && starts[|starts| - 1] < n
    ensures Splits(text, n + 1, starts + [n + 1], ends + [n + 1])
  {
  }

  function Home(m: nat, word: Name): (k: nat)
    requires m > 0
    ensures k < m
  {
    HashOf(word) % m
  }

  /** Slot k is the n-th on the probe path of the word, and the ones before are taken. */
  ghost predicate OnPath(table: seq<Slot>, word: Name, k: nat, n: nat)
    requires |table| > 0
  {
    && Probe(|table|, Home(|table|, word), n) == k
    && forall i: nat | i < n :: table[Probe(|table|, Home(|table|, word), i)].Full?
  }

  ghost predicate Placed(table: seq<Slot>, k: nat)
    requires k < |table|
  {
    table[k].Full? ==> exists n: nat :: OnPath(table, table[k].word, k, n)
  }

  ghost predicate Unique(table: seq<Slot>) {
    forall a, b | 0 <= a < b < |table| && table[a].Full? && table[b].Full? :: table[a].word != table[b].word
  }

  ghost predicate Has(table: seq<Slot>, word: Name) {
    exists k :: 0 <= k < |table| && table[k].Full? && table[k].word == word
  }

  /** The table holds the words once each, with how often they come. */
  ghost predicate Holds(table: seq<Slot>, words: seq<Name>) {
    && |table| > 0 && Unique(table)
    && (forall k | 0 <= k < |table| :: Placed(table, k))
    && (forall k | 0 <= k < |table| && table[k].Full? ::
          table[k].word in words && table[k].count == multiset(words)[table[k].word])
    && (forall w | w in words :: Has(table, w))
  }

  /** The probe for a word meets no empty slot, ever. */
  ghost predicate NoRoom(table: seq<Slot>, word: Name)
    requires |table| > 0
  {
    forall i: nat :: table[Probe(|table|, Home(|table|, word), i)].Full?
  }

  /** The first n slots tried for a word are taken by others. */
  ghost predicate Passed(table: seq<Slot>, word: Name, n: nat)
    requires |table| > 0
  {
    forall i: nat | i < n ::
      var s := table[Probe(|table|, Home(|table|, word), i)];
      s.Full? && s.word != word
  }

  // ---------- when the counting ends ----------

  /** How many slots, from the n-th on its path, a word tries before it comes to an empty one or to its
      own; the size of the table if it has not come to one by then. */
  function Stop(table: seq<Slot>, word: Name, n: nat): (i: nat)
    requires n <= |table| && |table| > 0
    ensures n <= i <= |table|
    decreases |table| - n
  {
    if n == |table| then n
    else
      var s := table[Probe(|table|, Home(|table|, word), n)];
      if s == Empty || s.word == word then n else Stop(table, word, n + 1)
  }

  /** The word finds its slot. */
  predicate Fits(table: seq<Slot>, word: Name)
    requires |table| > 0
  {
    Stop(table, word, 0) < |table|
  }

  /** The table after the word has been counted. */
  function Counted(table: seq<Slot>, word: Name): (after: seq<Slot>)
    requires |table| > 0 && Fits(table, word)
    ensures |after| == |table|
  {
    var k := Probe(|table|, Home(|table|, word), Stop(table, word, 0));
    table[k := Full(word, if table[k] == Empty then 1 else table[k].count + 1)]
  }

  /** A table of m slots after the words, or as many of them as find their slots. */
  function TableOf(m: nat, words: seq<Name>): (table: seq<Slot>)
    requires m > 0
    ensures |table| == m
  {
    if words == [] then seq(m, _ => Empty)
    else
      var t := TableOf(m, words[..|words| - 1]);
      var last := words[|words| - 1];
      if Fits(t, last) then Counted(t, last) else t
  }

  /** The n-th word finds its slot in a table of m slots that holds the words before it. */
  predicate FitsAt(m: nat, words: seq<Name>, n: nat)
    requires m > 0 && n < |words|
  {
    Fits(TableOf(m, words[..n]), words[n])
  }

  /** A word that is in the table always finds its slot; another one exactly when there is an empty slot on
      its path. */
  lemma FitsIff(table: seq<Slot>, words: seq<Name>, word: Name)
    requires Holds(table, words)
    ensures Fits(table, word) <==> word in words || !NoRoom(table, word)
  {
    var n := Stop(table, word, 0);
    hide Home, Probe;
    StopPassed(table, word, 0);
    if n == |table| {
      Stuck(table, words, word);
    } else {
      var s := table[Probe(|table|, Home(|table|, word), n)];
      if s == Empty {
        assert !NoRoom(table, word);
      }
    }
  }

  lemma {:induction false} StopPassed(table: seq<Slot>, word: Name, n: nat)
    requires |table| > 0 && n <= |table| && Passed(table, word, n)
    ensures Passed(table, word, Stop(table, word, n))
    ensures var i := Stop(table, word, n);
      i < |table| ==> (var s := table[Probe(|table|, Home(|table|, word), i)]; s == Empty || s.word == word)
    decreases |table| - n
  {
    hide Home, Probe;
    if n < |table| {
      var s := table[Probe(|table|, Home(|table|, word), n)];
      if !(s == Empty || s.word == word) {
        StopPassed(table, word, n + 1);
      }
    }
  }

  lemma PassedStep(table: seq<Slot>, word: Name, n: nat)
    requires |table| > 0 && Passed(table, word, n)
    requires var s := table[Probe(|table|, Home(|table|, word), n)]; s.Full? && s.word != word
    ensures Passed(table, word, n + 1) && (n < |table| ==> Stop(table, word, n) == Stop(table, word, n + 1))
    ensures var q := Probe(|table|, Home(|table|, word), n);
      Probe(|table|, Home(|table|, word), n + 1) == q * q % |table|
  {
    hide Home;
  }

  /** Where the probe meets an empty slot the word is not in the table. */
  lemma Absent(table: seq<Slot>, words: seq<Name>, word: Name, n: nat)
    requires Holds(table, words) && Passed(table, word, n) && !table[Probe(|table|, Home(|table|, word), n)].Full?
    ensures !Has(table, word) && word !in words
  {
    hide Probe, Home;
    forall k | 0 <= k < |table| && table[k].Full? ensures table[k].word != word {
      assert Placed(table, k);
      var i: nat :| OnPath(table, table[k].word, k, i);
    }
  }

  lemma Stuck(table: seq<Slot>, words: seq<Name>, word: Name)
    requires Holds(table, words) && Passed(table, word, |table|)
    ensures NoRoom(table, word) && !Has(table, word) && word !in words
  {
    hide Probe, Home;
    var m, h := |table|, Home(|table|, word);
    forall i: nat ensures table[Probe(m, h, i)].Full? && table[Probe(m, h, i)].word != word {
      var j := Covered(m, h, i);
    }
    forall k | 0 <= k < |table| && table[k].Full? ensures table[k].word != word {
      assert Placed(table, k);
      var i: nat :| OnPath(table, table[k].word, k, i);
    }
  }

  lemma CountOf(words: seq<Name>, word: Name, w: Name)
    ensures multiset(words + [word])[w] == multiset(words)[w] + if w == word then 1 else 0
    ensures w in words + [word] <==> w in words || w == word
  {
    assert multiset(words + [word]) == multiset(words) + multiset{word};
  }

  /** One more occurrence of a word in the table. */
  lemma Again(table: seq<Slot>, words: seq<Name>, k: nat)
    requires Holds(table, words) && k < |table| && table[k].Full?
    ensures Holds(table[k := table[k].(count := table[k].count + 1)], words + [table[k].word])
  {
    hide Probe, Home;
    var word := table[k].word;
    var after := table[k := table[k].(count := table[k].count + 1)];
    forall j | 0 <= j < |after| ensures Placed(after, j) {
      assert Placed(table, j);
      if table[j].Full? {
        var i: nat :| OnPath(table, table[j].word, j, i);
        assert OnPath(after, after[j].word, j, i);
      }
    }
    forall j | 0 <= j < |after| && after[j].Full?
      ensures after[j].word in words + [word] && after[j].count == multiset(words + [word])[after[j].word]
    {
      CountOf(words, word, after[j].word);
    }
    forall w | w in words + [word] ensures Has(after, w) {
      CountOf(words, word, w);
      var j :| 0 <= j < |table| && table[j].Full? && table[j].word == w;
      assert after[j].word == w;
    }
  }

  /** A new word in the first empty slot of its probe path. */
  lemma Fresh(table: seq<Slot>, words: seq<Name>, word: Name, n: nat)
    requires Holds(table, words) && Passed(table, word, n) && !table[Probe(|table|, Home(|table|, word), n)].Full?
    ensures Holds(table[Probe(|table|, Home(|table|, word), n) := Full(word, 1)], words + [word])
  {
    Absent(table, words, word, n);
    hide Probe, Home;
    var k := Probe(|table|, Home(|table|, word), n);
    var after := table[k := Full(word, 1)];
    forall j | 0 <= j < |after| ensures Placed(after, j) {
      if j == k {
        assert OnPath(after, word, k, n);
      } else if table[j].Full? {
        assert Placed(table, j);
        var i: nat :| OnPath(table, table[j].word, j, i);
        assert OnPath(after, after[j].word, j, i);
      }
    }
    forall j | 0 <= j < |after| && after[j].Full?
      ensures after[j].word in words + [word] && after[j].count == multiset(words + [word])[after[j].word]
    {
      CountOf(words, word, after[j].word);
    }
    forall w | w in words + [word] ensures Has(after, w) {
      CountOf(words, word, w);
      if w == word {
        assert after[k].word == w;
      } else {
        var j :| 0 <= j < |table| && table[j].Full? && table[j].word == w;
        assert after[j].word == w;
      }
    }
  }

  class WordCount {
    const table: array<Slot>

    /** create_hash */
    constructor (size: nat)
      requires size >= 3
      ensures table.Length == size / 3 && Holds(table[..], []) && fresh(table)
    {
      table := new Slot[size / 3](_ => Empty);
      new;
      assert forall k | 0 <= k < table.Length :: !table[k].Full?;
    }

    /** Lines 60-96: count one word. It is counted exactly when it is in the table or there is an empty slot
        on its path; otherwise the loop never ends, which tries finds out. */
    method Add(word: Name, ghost words: seq<Name>) returns (done: bool)
      requires Holds(table[..], words)
      modifies table
      ensures table.Length > 0
      ensures done <==> Fits(old(table[..]), word)
      ensures done <==> word in words || !NoRoom(old(table[..]), word)
      ensures done ==> Holds(table[..], words + [word]) && table[..] == Counted(old(table[..]), word)
      ensures !done ==> table[..] == old(table[..])
    {
      hide Holds, Probe, Passed;
      ghost var was := table[..];
      Nonempty(was, words);
      FitsIff(was, words, word);
      hide NoRoom;
      var h := Hash(word);
      var key := h % table.Length;
      PassedNone(was, word);
      if table[key] == Empty {
        Fresh(was, words, word, 0);
        table[key] := Full(word, 1);
        assert table[..] == was[key := Full(word, 1)];
        return true;
      } else if table[key].word == word {
        Again(was, words, key);
        table[key] := table[key].(count := table[key].count + 1);
        assert table[..] == was[key := was[key].(count := was[key].count + 1)];
        return true;
      }
      var tries := 0;
      while table[key] != Empty
        invariant 0 <= tries < table.Length && table[..] == was
        invariant 0 <= key < table.Length && key == Probe(table.Length, Home(table.Length, word), tries)
        invariant Passed(was, word, tries) && Stop(was, word, 0) == Stop(was, word, tries)
        decreases table.Length - tries
      {
        if table[key].word == word {
          Again(was, words, key);
          table[key] := table[key].(count := table[key].count + 1);
          assert table[..] == was[key := was[key].(count := was[key].count + 1)];
          return true;
        }
        PassedStep(was, word, tries);
        key := key * key % table.Length;
        tries := tries + 1;
        if tries == table.Length {
          Stuck(was, words, word);
          return false;
        }
      }
      Fresh(was, words, word, tries);
      table[key] := Full(word, 1);
      assert table[..] == was[key := Full(word, 1)];
      done := true;
    }

    /** The scanning loop of wc_init. It ends exactly when every word that white space ends finds its slot
        among the words before it, and then the table holds them all with their numbers of occurrences;
        otherwise it never gets past the first that does not. */
    method Scan(text: seq<int>) returns (done: bool, ghost n: nat)
      requires Holds(table[..], []) && 0 !in text
      requires forall i | 0 <= i <= |text| :: |Pending(text[..i])| < BUFFER
      modifies table
      ensures table.Length > 0 && n <= |Words(text)| && Holds(table[..], Words(text)[..n])
      ensures table[..] == TableOf(table.Length, Words(text)[..n])
      ensures forall j: nat | j < n :: FitsAt(table.Length, Words(text), j)
      ensures done <==> forall j: nat | j < |Words(text)| :: FitsAt(table.Length, Words(text), j)
      ensures if done then n == |Words(text)| else n < |Words(text)| && !FitsAt(table.Length, Words(text), n)
    {
      hide Holds, NoRoom, Words, Pending, TableOf, FitsAt, Fits, Counted;
      assert text[..0] == [] && Words([]) == [] && Pending([]) == [] by {
        WordsNone();
      }
      var buff := new int[BUFFER](_ => 0);
      var i, k, insert := 0, 0, false;
      ghost var words: seq<Name> := [];
      Blank(table[..]);
      while i < |text|
        invariant 0 <= i <= |text| && 0 <= k < BUFFER && buff.Length == BUFFER && fresh(buff)
        invariant buff[..k] == Pending(text[..i]) && words == Words(text[..i]) && !insert
        invariant Holds(table[..], words) && 0 !in buff[..k]
        invariant table.Length > 0 && table[..] == TableOf(table.Length, words)
        invariant forall j: nat | j < |words| :: FitsAt(table.Length, words, j)
      {
        ghost var front := text[..i];
        assert text[..i + 1][..i] == front && text[i] in text;
        WordsGrow(text, i);
        if !IsSpace(text[i]) {
          buff[k] := text[i];
          k := k + 1;
          assert |Pending(text[..i + 1])| < BUFFER;
          assert buff[0] in buff[..k];
        } else {
          buff[k] := 0;
          assert k > 0 ==> buff[0] in buff[..k];
          CStringOf(buff[..], k);
          k := 0;
          insert := true;
        }
        if buff[0] == 0 {
          insert := false;
        }
        if insert {
          insert := false;
          var word := CString(buff[..]);
          done := Add(word, words);
          if !done {
            n := |words|;
            WordsPrefix(text, i + 1);
            PrefixParts(words, word, Words(text));
            PrefixFits(table.Length, words, Words(text));
            return false, n;
          }
          OneMore(table.Length, words, word);
          words := words + [word];
        }
        i := i + 1;
      }
      n := |words|;
      assert text[..i] == text && words[..n] == words;
      return true, n;
    }
  }

  lemma Blank(table: seq<Slot>)
    requires Holds(table, [])
    ensures |table| > 0 && table == TableOf(|table|, [])
  {
  }

  lemma OneMore(m: nat, words: seq<Name>, word: Name)
    requires m > 0 && (forall j: nat | j < |words| :: FitsAt(m, words, j))
    requires Fits(TableOf(m, words), word)
    ensures forall j: nat | j <= |words| :: FitsAt(m, words + [word], j)
    ensures TableOf(m, words + [word]) == Counted(TableOf(m, words), word)
  {
    hide Fits, Counted, TableOf;
    var more := words + [word];
    assert more[..|words|] == words;
    forall j: nat | j < |words| ensures FitsAt(m, more, j) {
      assert more[..j] == words[..j];
      assert FitsAt(m, words, j);
    }
    TableGrows(m, more);
  }

  lemma TableGrows(m: nat, words: seq<Name>)
    requires m > 0 && words != []
    ensures var t, last := TableOf(m, words[..|words| - 1]), words[|words| - 1];
      TableOf(m, words) == if Fits(t, last) then Counted(t, last) else t
  {
  }

  lemma PrefixFits(m: nat, words: seq<Name>, all: seq<Name>)
    requires m > 0 && words <= all
    ensures forall j: nat | j < |words| :: FitsAt(m, words, j) <==> FitsAt(m, all, j)
    ensures |words| < |all| ==> (FitsAt(m, all, |words|) <==> Fits(TableOf(m, words), all[|words|]))
  {
    hide Fits, TableOf;
    forall j: nat | j < |words| ensures FitsAt(m, words, j) <==> FitsAt(m, all, j) {
      assert words[..j] == all[..j];
    }
    assert all[..|words|] == words;
  }

  /** The characters up to the first zero. */
  function CString(s: seq<int>): seq<int> {
    if s == [] || s[0] == 0 then [] else [s[0]] + CString(s[1..])
  }

  lemma {:induction false} CStringOf(s: seq<int>, k: nat)
    requires k < |s| && s[k] == 0 && 0 !in s[..k]
    ensures CString(s) == s[..k]
    decreases k
  {
    if k > 0 {
      assert s[0] in s[..k];
      assert s[1..][..k - 1] == s[1..k];
      forall i | 1 <= i < k ensures s[i] != 0 {
        assert s[i] in s[..k];
      }
      CStringOf(s[1..], k - 1);
    }
  }

  lemma WordsNone()
    ensures Words([]) == [] && Pending([]) == []
  {
  }

  lemma PrefixParts(a: seq<Name>, w: Name, c: seq<Name>)
    requires a + [w] <= c
    ensures |a| < |c| && c[..|a|] == a && c[|a|] == w
  {
    assert c[..|a| + 1] == a + [w];
    assert c[..|a|] == c[..|a| + 1][..|a|];
    assert c[|a|] == c[..|a| + 1][|a|];
  }

  lemma WordsGrow(text: seq<int>, i: nat)
    requires i < |text|
    ensures var front, more := text[..i], text[..i + 1];
      && Pending(more) == (if IsSpace(text[i]) then [] else Pending(front) + [text[i]])
      && Words(more) ==
           if IsSpace(text[i]) && Pending(front) != [] then Words(front) + [Pending(front)] else Words(front)
  {
    assert text[..i + 1][..i] == text[..i];
  }

  lemma {:induction false} WordsPrefix(text: seq<int>, i: nat)
    requires i <= |text|
    ensures Words(text[..i]) <= Words(text)
    decreases |text| - i
  {
    if i < |text| {
      WordsGrow(text, i);
      WordsPrefix(text, i + 1);
    } else {
      assert text[..i] == text;
    }
  }

  lemma Nonempty(table: seq<Slot>, words: seq<Name>)
    requires Holds(table, words)
    ensures |table| > 0
  {
  }

  lemma PassedNone(table: seq<Slot>, word: Name)
    requires |table| > 0
    ensures Passed(table, word, 0) && Probe(|table|, Home(|table|, word), 0) == Home(|table|, word)
  {
  }

  // ---------- a text that is never counted ----------

  lemma OneLonger(front: seq<int>, c: int, text: seq<int>)
    requires text == front + [c]
    ensures Pending(text) == if IsSpace(c) then [] else Pending(front) + [c]
    ensures Words(text) == if IsSpace(c) && Pending(front) != [] then Words(front) + [Pending(front)] else Words(front)
  {
    assert text[..|text| - 1] == front;
  }

  lemma TwoWords()
    ensures Words([97, 32, 98, 32]) == [[97], [98]]
    ensures Pending([]) == Pending([97, 32]) == Pending([97, 32, 98, 32]) == []
    ensures Pending([97]) == [97] && Pending([97, 32, 98]) == [98]
  {
    WordsNone();
    hide Words, Pending;
    OneLonger([], 97, [97]);
    OneLonger([97], 32, [97, 32]);
    OneLonger([97, 32], 98, [97, 32, 98]);
    OneLonger([97, 32, 98], 32, [97, 32, 98, 32]);
    assert Pending([97]) == [] + [97] == [97];
    assert Words([97, 32]) == [] + [[97]] == [[97]];
    assert Pending([97, 32, 98]) == [] + [98] == [98];
    assert Words([97, 32, 98, 32]) == Words([97, 32, 98]) + [Pending([97, 32, 98])];
    assert [[97]] + [[98]] == [[97], [98]];
  }

  /** A table of one slot has no room for a second word. */
  lemma OneSlot(a: Name, b: Name)
    requires a != b
    ensures !FitsAt(1, [a, b], 1)
  {
    hide Home;
    assert [a, b][..1] == [a] && [a][..0] == [];
    var t := TableOf(1, []);
    assert t == [Empty] && Stop(t, a, 0) == 0;
    assert TableOf(1, [a]) == [Full(a, 1)];
    assert Stop([Full(a, 1)], b, 0) == Stop([Full(a, 1)], b, 1) == 1;
  }

  lemma ShortWords(text: seq<int>)
    requires text == [97, 32, 98, 32]
    ensures forall i | 0 <= i <= |text| :: |Pending(text[..i])| <= 1
  {
    TwoWords();
    hide Words, Pending;
    forall i | 0 <= i <= |text| ensures |Pending(text[..i])| <= 1 {
      assert text[..0] == [] && text[..1] == [97] && text[..2] == [97, 32] && text[..3] == [97, 32, 98]
        && text[..4] == text;
    }
  }

  lemma SecondHangs(text: seq<int>)
    requires text == [97, 32, 98, 32]
    ensures |Words(text)| == 2 && !FitsAt(1, Words(text), 1) && 0 !in text
    ensures forall i | 0 <= i <= |text| :: |Pending(text[..i])| < BUFFER
  {
    TwoWords();
    ShortWords(text);
    OneSlot([97], [98]);
    hide Words, Pending, FitsAt;
  }

  /** The text "a b ", of four characters, gets a table of one slot: counting it never ends. */
  method NeverCounted() returns (done: bool)
    ensures !done
  {
    hide Words, Pending, Holds, FitsAt, TableOf;
    var wc := new WordCount(4);
    var text := [97, 32, 98, 32];
    SecondHangs(text);
    ghost var n;
    done, n := wc.Scan(text);
  }
}
