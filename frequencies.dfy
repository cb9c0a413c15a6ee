/**
 * The frequency table: a HashMap from character to count. Its keys are kept in insertion
 * order, which stands for the order in which the source iterates over keySet().
 */
module Frequencies {

  datatype Table = Table(keys: seq<char>, counts: map<char, int>)
  {
    /** Each key is listed once, and the listed keys are exactly the mapped ones. */
    ghost predicate Valid() {
      && (forall i, j :: 0 <= i < j < |keys| ==> keys[i] != keys[j])
      && (forall c :: c in counts <==> c in keys)
    }
  }

  const EmptyTable: Table := Table([], map[])

  /** HashMap.put: a new key goes to the end of the iteration order, an old one keeps its place. */
  function Put(t: Table, c: char, n: int): (r: Table)
    requires t.Valid()
    ensures r.Valid()
    ensures r.counts == t.counts[c := n]
    ensures r.keys == if c in t.counts then t.keys else t.keys + [c]
  {
    if c in t.counts then Table(t.keys, t.counts[c := n]) else Table(t.keys + [c], t.counts[c := n])
  }

  /** What the counting loop of analyseFrequencies leaves in table t after reading text. */
  function CountInto(t: Table, text: string): (r: Table)
    requires t.Valid()
    ensures r.Valid()
    decreases |text|
  {
    if text == [] then t
    else
      var u := CountInto(t, text[..|text| - 1]);
      var c := text[|text| - 1];
      Put(u, c, if c in u.counts then u.counts[c] + 1 else 1)
  }

  /** The table analyseFrequencies builds from text on an empty table. */
  function Frequencies(text: string): (r: Table)
    ensures r.Valid()
  {
    CountInto(EmptyTable, text)
  }

  function SumOver(ks: seq<char>, m: map<char, int>): int
    requires forall k :: k in ks ==> k in m
  {
    if ks == [] then 0 else SumOver(ks[..|ks| - 1], m) + m[ks[|ks| - 1]]
  }

  /** The sum of all counts of the table. */
  function Sum(t: Table): int
    requires t.Valid()
  {
    SumOver(t.keys, t.counts)
  }

  /** Changing the count of a key listed once changes the sum by the difference. */
  lemma {:induction false} SumOverUpdate(ks: seq<char>, m: map<char, int>, c: char, n: int)
    requires forall k :: k in ks ==> k in m
    requires forall i, j :: 0 <= i < j < |ks| ==> ks[i] != ks[j]
    requires c in m
    ensures SumOver(ks, m[c := n]) == SumOver(ks, m) + (if c in ks then n - m[c] else 0)
  {
    if ks != [] {
      var init := ks[..|ks| - 1];
      assert forall k :: k in init ==> k in ks;
      SumOverUpdate(init, m, c, n);
      if ks[|ks| - 1] == c {
        assert c !in init by {
          forall i | 0 <= i < |init| ensures init[i] != c {
            assert ks[i] != ks[|ks| - 1];
          }
        }
      } else {
        assert (c in ks) == (c in init) by {
          if c in ks {
            var i :| 0 <= i < |ks| && ks[i] == c;
            assert init[i] == c;
          }
        }
      }
    }
  }

  /** Adding a key at the end adds its count, and counts of keys not listed do not matter. */
  lemma {:induction false} SumOverExtend(ks: seq<char>, m: map<char, int>, c: char, n: int)
    requires forall k :: k in ks ==> k in m
    requires c !in ks
    ensures SumOver(ks + [c], m[c := n]) == SumOver(ks, m) + n
  {
    assert (ks + [c])[..|ks|] == ks;
    SumOverFrame(ks, m, m[c := n]);
  }

  lemma {:induction false} SumOverFrame(ks: seq<char>, m: map<char, int>, m': map<char, int>)
    requires forall k :: k in ks ==> k in m && k in m' && m[k] == m'[k]
    ensures SumOver(ks, m) == SumOver(ks, m')
  {
    if ks != [] {
      var init := ks[..|ks| - 1];
      assert forall k :: k in init ==> k in ks;
      SumOverFrame(init, m, m');
    }
  }

  /**
   * Counting text into t: the keys are t's keys followed by the characters of text that were
   * new, in order of first appearance; each count grows by the number of occurrences in text.
   */
  lemma {:induction false} CountIntoCounts(t: Table, text: string)
    requires t.Valid()
    ensures var r := CountInto(t, text);
      && |t.keys| <= |r.keys| && r.keys[..|t.keys|] == t.keys
      && (forall c :: c in r.counts <==> c in t.counts || c in text)
      && (forall c :: c in r.counts ==>
            r.counts[c] == (if c in t.counts then t.counts[c] else 0) + multiset(text)[c])
    decreases |text|
  {
    if text != [] {
      var init := text[..|text| - 1];
      var c := text[|text| - 1];
      CountIntoCounts(t, init);
      assert text == init + [c];
      assert multiset(text) == multiset(init) + multiset{c};
      assert forall d :: d in text <==> d in init || d == c;
      var u := CountInto(t, init);
      var r := CountInto(t, text);
      assert r.keys[..|u.keys|] == u.keys;
      assert r.keys[..|t.keys|] == u.keys[..|t.keys|];
    }
  }

  /** Counting text into t raises the sum of the counts by the length of text. */
  lemma {:induction false} CountIntoSum(t: Table, text: string)
    requires t.Valid()
    ensures Sum(CountInto(t, text)) == Sum(t) + |text|
    decreases |text|
  {
    if text != [] {
      var init := text[..|text| - 1];
      var u := CountInto(t, init);
      var c := text[|text| - 1];
      var n := if c in u.counts then u.counts[c] + 1 else 1;
      var r := Put(u, c, n);
      assert CountInto(t, text) == r;
      CountIntoSum(t, init);
      if c in u.counts {
        SumOverUpdate(u.keys, u.counts, c, n);
        assert Sum(r) == SumOver(u.keys, u.counts[c := n]);
      } else {
        SumOverExtend(u.keys, u.counts, c, 1);
        assert Sum(r) == SumOver(u.keys + [c], u.counts[c := n]);
      }
    }
  }

  /**
   * Frequency analysis on a fresh table: one entry per distinct character, whose count is its
   * number of occurrences (so at least one), the counts add up to the length of the text,
   * and an empty text leaves the table empty.
   */
  lemma FrequenciesCorrect(text: string)
    ensures var r := Frequencies(text);
      && (forall c :: c in r.counts <==> c in text)
      && (forall c :: c in r.counts ==> r.counts[c] == multiset(text)[c] >= 1)
      && Sum(r) == |text|
      && (text == [] ==> r == EmptyTable)
  {
    CountIntoCounts(EmptyTable, text);
    CountIntoSum(EmptyTable, text);
  }
}
