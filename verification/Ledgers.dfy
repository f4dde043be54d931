/** Lists of records that are kept over a run: in order, genuine, and with every number accounted for. */
module Ledgers {
  import opened Words
  import opened LogRing

  ghost predicate Ascending(s: seq<Entry>) {
    forall i, j | 0 <= i < j < |s| :: s[i].seqNum < s[j].seqNum
  }

  /** Every record carries exactly what was appended under its number, and is older than `end`. */
  ghost predicate Genuine(s: seq<Entry>, hist: seq<Event>, end: nat) {
    forall j | 0 <= j < |s| ::
      s[j].seqNum < end && s[j].seqNum < |hist| && s[j] == Record(s[j].seqNum, hist[s[j].seqNum])
  }

  ghost predicate Has(s: seq<Entry>, k: nat) {
    exists j | 0 <= j < |s| :: s[j].seqNum == k
  }

  /** Number k is on exactly one of three lists. */
  ghost predicate OnOne(a: seq<Entry>, b: seq<Entry>, c: seq<Entry>, k: nat) {
    && (Has(a, k) || Has(b, k) || Has(c, k))
    && !(Has(a, k) && Has(b, k)) && !(Has(a, k) && Has(c, k)) && !(Has(b, k) && Has(c, k))
  }

  lemma HasConcat(s: seq<Entry>, t: seq<Entry>, k: nat)
    ensures Has(s + t, k) <==> Has(s, k) || Has(t, k)
  {
    if Has(s, k) {
      var j :| 0 <= j < |s| && s[j].seqNum == k;
      assert (s + t)[j].seqNum == k;
    }
    if Has(t, k) {
      var j :| 0 <= j < |t| && t[j].seqNum == k;
      assert (s + t)[|s| + j].seqNum == k;
    }
  }

  /** A window holds exactly its own numbers. */
  lemma HasWindow(hist: seq<Event>, from: nat, to: nat, k: nat)
    requires from <= to <= |hist| < TWO_64
    ensures Has(Window(hist, from, to), k) <==> from <= k < to
  {
    if from <= k < to {
      assert Window(hist, from, to)[k - from].seqNum == k;
    }
  }

  /** A list grows by a window behind all it holds. */
  lemma ListGrows(s: seq<Entry>, hist: seq<Event>, end: nat, from: nat, to: nat)
    requires end <= from <= to <= |hist| < TWO_64
    requires Ascending(s) && Genuine(s, hist, end)
    ensures Ascending(s + Window(hist, from, to)) && Genuine(s + Window(hist, from, to), hist, to)
    ensures forall k: nat :: Has(s + Window(hist, from, to), k) <==> Has(s, k) || from <= k < to
  {
    forall k: nat
      ensures Has(s + Window(hist, from, to), k) <==> Has(s, k) || from <= k < to
    {
      HasConcat(s, Window(hist, from, to), k);
      HasWindow(hist, from, to, k);
    }
  }

  /** A list of a history is one of any longer history. */
  lemma GenuineLonger(s: seq<Entry>, hist: seq<Event>, ev: Event, end: nat, end': nat)
    requires Genuine(s, hist, end) && end <= end'
    ensures Genuine(s, hist + [ev], end')
  {
  }

  lemma SomethingBelow(s: seq<Entry>, m: nat)
    requires forall j | 0 <= j < |s| :: s[j].seqNum < m
    ensures s != [] ==> 0 < m
  {
    if s != [] {
      assert 0 <= s[0].seqNum;
    }
  }

  /** In an ascending list that holds every number below m and no other, number k is at place k. */
  lemma {:induction false} AscendingAndComplete(s: seq<Entry>, m: nat)
    requires Ascending(s)
    requires forall j | 0 <= j < |s| :: s[j].seqNum < m
    requires forall k | 0 <= k < m :: Has(s, k)
    ensures |s| == m && forall j | 0 <= j < m :: s[j].seqNum == j
  {
    if m == 0 {
      SomethingBelow(s, m);
    } else {
      assert Has(s, m - 1);
      var j :| 0 <= j < |s| && s[j].seqNum == m - 1;
      assert s[|s| - 1].seqNum < m;
      assert j == |s| - 1;
      var front := s[..j];
      forall k | 0 <= k < m - 1
        ensures Has(front, k)
      {
        assert Has(s, k);
        var i :| 0 <= i < |s| && s[i].seqNum == k;
        assert front[i].seqNum == k;
      }
      AscendingAndComplete(front, m - 1);
    }
  }

  lemma NothingElse(s: seq<Entry>, hist: seq<Event>, end: nat)
    requires Genuine(s, hist, end)
    requires forall k | 0 <= k < end :: !Has(s, k)
    ensures s == []
  {
    if s != [] {
      assert Has(s, s[0].seqNum);
    }
  }
}
