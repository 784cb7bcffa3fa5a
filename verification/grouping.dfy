/**
 * The `java.util.stream` collectors the reports use, over a sequence of
 * events in store order: `filter`, `groupingBy(key)` and
 * `groupingBy(key, summarizingDouble(value))`, each with an independent
 * reference definition by selection, and the lemmas connecting them.
 */
module Grouping {
  import opened Events
  import opened Seqs

  /** The events satisfying `p`, in order (`Stream.filter`). */
  function Filter(es: seq<Event>, p: Event -> bool): (r: seq<Event>)
    ensures |r| <= |es|
    ensures forall e | e in r :: p(e) && e in es
    ensures forall e | e in es && p(e) :: e in r
    ensures forall e :: multiset(r)[e] == if p(e) then multiset(es)[e] else 0
  {
    if |es| == 0 then []
    else
      var prefix := es[..|es| - 1];
      var last := es[|es| - 1];
      assert es == prefix + [last];
      Filter(prefix, p) + (if p(last) then [last] else [])
  }

  /** Filtering commutes with concatenation, so the kept events stay in store order. */
  lemma {:induction false} FilterAppend(a: seq<Event>, b: seq<Event>, p: Event -> bool)
    ensures Filter(a + b, p) == Filter(a, p) + Filter(b, p)
  {
    if |b| == 0 {
      assert a + b == a;
      assert Filter(a, p) + [] == Filter(a, p);
    } else {
      var init := b[..|b| - 1];
      assert (a + b)[..|a + b| - 1] == a + init;
      FilterAppend(a, init, p);
      FilterSnoc(a + b, p);
      FilterSnoc(b, p);
      var tail := if p(b[|b| - 1]) then [b[|b| - 1]] else [];
      Associates(Filter(a, p), Filter(init, p), tail);
    }
  }

  /** One step of `Filter`: the last event is kept exactly when it passes. */
  lemma FilterSnoc(es: seq<Event>, p: Event -> bool)
    requires |es| > 0
    ensures Filter(es, p) == Filter(es[..|es| - 1], p) + (if p(es[|es| - 1]) then [es[|es| - 1]] else [])
  {
  }

  /** The events whose key is `k`, in order: the reference meaning of one group. */
  function Select(es: seq<Event>, key: Event -> string, k: string): (r: seq<Event>)
    ensures |r| <= |es|
    ensures forall e | e in r :: key(e) == k && e in es
    ensures forall e | e in es && key(e) == k :: e in r
  {
    if |es| == 0 then []
    else
      var last := es[|es| - 1];
      Select(es[..|es| - 1], key, k) + (if key(last) == k then [last] else [])
  }

  /** A group is the filter on its key. */
  lemma {:induction false} SelectIsFilter(es: seq<Event>, key: Event -> string, k: string)
    ensures Select(es, key, k) == Filter(es, e => key(e) == k)
  {
    if |es| > 0 {
      SelectIsFilter(es[..|es| - 1], key, k);
    }
  }

  /** Sum of the events' values, in order. */
  function SumValues(es: seq<Event>): real {
    if |es| == 0 then 0.0 else SumValues(es[..|es| - 1]) + es[|es| - 1].value
  }

  /** The keys that occur among the events. */
  function KeySet(es: seq<Event>, key: Event -> string): set<string> {
    set e | e in es :: key(e)
  }

  /** The keys that occur, each once, in order of first occurrence. */
  function DistinctKeys(es: seq<Event>, key: Event -> string): (ks: seq<string>)
    ensures forall i, j | 0 <= i < j < |ks| :: ks[i] != ks[j]
    ensures forall k :: k in ks <==> k in KeySet(es, key)
  {
    if |es| == 0 then []
    else
      var prefix := es[..|es| - 1];
      var last := es[|es| - 1];
      assert es == prefix + [last];
      var ks := DistinctKeys(prefix, key);
      if key(last) in ks then ks else ks + [key(last)]
  }

  /**
   * `Collectors.groupingBy(key)`: walking the events in order, each one is
   * added at the end of its key's list.
   */
  function GroupBy(es: seq<Event>, key: Event -> string): (g: map<string, seq<Event>>)
    ensures g.Keys == KeySet(es, key)
    ensures forall k | k in g :: |g[k]| > 0
    ensures forall k | k in g :: forall i | 0 <= i < |g[k]| :: key(g[k][i]) == k && g[k][i] in es
  {
    if |es| == 0 then map[]
    else
      var groups := GroupBy(es[..|es| - 1], key);
      var last := es[|es| - 1];
      var k := key(last);
      KeySetSnoc(es, key);
      assert forall e | e in es[..|es| - 1] :: e in es;
      groups[k := (if k in groups then groups[k] else []) + [last]]
  }

  /** Java's `DoubleSummaryStatistics`, reduced to the two figures the reports read. */
  datatype Summary = Summary(sum: real, count: nat)

  /** `Collectors.groupingBy(key, Collectors.summarizingDouble(value))`. */
  function Summarize(es: seq<Event>, key: Event -> string): (s: map<string, Summary>)
    ensures s.Keys == KeySet(es, key)
    ensures forall k | k in s :: s[k].count > 0
  {
    if |es| == 0 then map[]
    else
      var stats := Summarize(es[..|es| - 1], key);
      var last := es[|es| - 1];
      var k := key(last);
      KeySetSnoc(es, key);
      var before := if k in stats then stats[k] else Summary(0.0, 0);
      stats[k := Summary(before.sum + last.value, before.count + 1)]
  }

  /** A key that does not occur selects nothing. */
  lemma SelectAbsent(es: seq<Event>, key: Event -> string, k: string)
    requires k !in KeySet(es, key)
    ensures Select(es, key, k) == []
  {
  }

  lemma KeySetSnoc(es: seq<Event>, key: Event -> string)
    requires |es| > 0
    ensures KeySet(es, key) == KeySet(es[..|es| - 1], key) + {key(es[|es| - 1])}
  {
    var prefix := es[..|es| - 1];
    assert es == prefix + [es[|es| - 1]];
    assert forall e | e in es :: e in prefix || e == es[|es| - 1];
  }

  /** Each group `groupingBy` builds is exactly the selection of its key, in store order. */
  lemma {:induction false} GroupByIsSelect(es: seq<Event>, key: Event -> string)
    ensures GroupBy(es, key).Keys == KeySet(es, key)
    ensures forall k | k in GroupBy(es, key) :: GroupBy(es, key)[k] == Select(es, key, k)
  {
    if |es| > 0 {
      var prefix := es[..|es| - 1];
      GroupByIsSelect(prefix, key);
      KeySetSnoc(es, key);
      var k := key(es[|es| - 1]);
      if k !in GroupBy(prefix, key) {
        SelectAbsent(prefix, key, k);
      }
    }
  }

  /** Each summary `summarizingDouble` builds is the sum and count of its key's selection. */
  lemma SummarizeIsSelect(es: seq<Event>, key: Event -> string)
    ensures Summarize(es, key).Keys == KeySet(es, key)
    ensures forall k | k in Summarize(es, key) ::
      Summarize(es, key)[k] == Summary(SumValues(Select(es, key, k)), |Select(es, key, k)|)
  {
    forall k ensures k in Summarize(es, key) <==> k in KeySet(es, key) {
      SummarizeAt(es, key, k);
    }
    forall k | k in Summarize(es, key)
      ensures Summarize(es, key)[k] == Summary(SumValues(Select(es, key, k)), |Select(es, key, k)|)
    {
      SummarizeAt(es, key, k);
    }
  }

  lemma {:induction false} SummarizeAt(es: seq<Event>, key: Event -> string, k: string)
    ensures k in Summarize(es, key) <==> k in KeySet(es, key)
    ensures k in Summarize(es, key) ==>
      Summarize(es, key)[k] == Summary(SumValues(Select(es, key, k)), |Select(es, key, k)|)
  {
    if |es| > 0 {
      var prefix := es[..|es| - 1];
      SummarizeAt(prefix, key, k);
      KeySetSnoc(es, key);
      SelectSnoc(es, key, k);
      if key(es[|es| - 1]) == k && k !in Summarize(prefix, key) {
        SelectAbsent(prefix, key, k);
      }
    }
  }

  /** The last event joins its own key's selection and no other. */
  lemma SelectSnoc(es: seq<Event>, key: Event -> string, k: string)
    requires |es| > 0
    ensures var s := Select(es[..|es| - 1], key, k);
      var hit := key(es[|es| - 1]) == k;
      && |Select(es, key, k)| == |s| + (if hit then 1 else 0)
      && SumValues(Select(es, key, k)) == SumValues(s) + (if hit then es[|es| - 1].value else 0.0)
  {
    var s := Select(es[..|es| - 1], key, k);
    var last := es[|es| - 1];
    if key(last) == k {
      assert (s + [last])[..|s|] == s;
    } else {
      assert s + [] == s;
    }
  }

  /** Group sizes over a list of keys. */
  function CountOver(ks: seq<string>, es: seq<Event>, key: Event -> string): nat {
    if |ks| == 0 then 0
    else CountOver(ks[..|ks| - 1], es, key) + |Select(es, key, ks[|ks| - 1])|
  }

  /** Group value sums over a list of keys. */
  function SumOver(ks: seq<string>, es: seq<Event>, key: Event -> string): real {
    if |ks| == 0 then 0.0
    else SumOver(ks[..|ks| - 1], es, key) + SumValues(Select(es, key, ks[|ks| - 1]))
  }

  /** One more event adds one to its own group and nothing to any other. */
  lemma {:induction false} OverSnoc(ks: seq<string>, es: seq<Event>, e: Event, key: Event -> string)
    requires forall i, j | 0 <= i < j < |ks| :: ks[i] != ks[j]
    ensures CountOver(ks, es + [e], key) == CountOver(ks, es, key) + (if key(e) in ks then 1 else 0)
    ensures SumOver(ks, es + [e], key) == SumOver(ks, es, key) + (if key(e) in ks then e.value else 0.0)
  {
    if |ks| > 0 {
      var init := ks[..|ks| - 1];
      var k := ks[|ks| - 1];
      OverSnoc(init, es, e, key);
      assert (es + [e])[..|es|] == es;
      assert Select(es + [e], key, k) == Select(es, key, k) + (if key(e) == k then [e] else []);
      var s := Select(es, key, k);
      assert SumValues(s + [e]) == SumValues(s) + e.value by {
        assert (s + [e])[..|s|] == s;
      }
      assert key(e) in ks <==> key(e) in init || key(e) == k;
      if key(e) == k {
        assert key(e) !in init;
        assert SumOver(ks, es + [e], key) == SumOver(init, es, key) + SumValues(s) + e.value;
      } else {
        assert Select(es + [e], key, k) == s;
      }
    }
  }

  /**
   * The groups partition the events: over the distinct keys, the group sizes
   * add up to the number of events and the group sums to the total value.
   */
  lemma {:induction false} GroupsPartition(es: seq<Event>, key: Event -> string)
    ensures CountOver(DistinctKeys(es, key), es, key) == |es|
    ensures SumOver(DistinctKeys(es, key), es, key) == SumValues(es)
  {
    if |es| > 0 {
      GroupsPartition(es[..|es| - 1], key);
      PartitionStep(es, key);
    }
  }

  /** The partition totals move by exactly the last event. */
  lemma PartitionStep(es: seq<Event>, key: Event -> string)
    requires |es| > 0
    ensures var prefix := es[..|es| - 1];
      && CountOver(DistinctKeys(es, key), es, key) == CountOver(DistinctKeys(prefix, key), prefix, key) + 1
      && SumOver(DistinctKeys(es, key), es, key) == SumOver(DistinctKeys(prefix, key), prefix, key) + es[|es| - 1].value
  {
    var prefix := es[..|es| - 1];
    var last := es[|es| - 1];
    assert es == prefix + [last];
    var ks := DistinctKeys(prefix, key);
    OverSnoc(ks, prefix, last, key);
    if key(last) !in ks {
      NewKeyGroup(es, key);
      OverAppendKey(ks, key(last), es, key);
    }
  }

  lemma OverAppendKey(ks: seq<string>, k: string, es: seq<Event>, key: Event -> string)
    ensures CountOver(ks + [k], es, key) == CountOver(ks, es, key) + |Select(es, key, k)|
    ensures SumOver(ks + [k], es, key) == SumOver(ks, es, key) + SumValues(Select(es, key, k))
  {
    assert (ks + [k])[..|ks|] == ks;
  }

  /** An event whose key is new forms a group of its own. */
  lemma NewKeyGroup(es: seq<Event>, key: Event -> string)
    requires |es| > 0 && key(es[|es| - 1]) !in KeySet(es[..|es| - 1], key)
    ensures |Select(es, key, key(es[|es| - 1]))| == 1
    ensures SumValues(Select(es, key, key(es[|es| - 1]))) == es[|es| - 1].value
  {
    SelectAbsent(es[..|es| - 1], key, key(es[|es| - 1]));
    SelectSnoc(es, key, key(es[|es| - 1]));
  }

  /** The first event of a group is the earliest event carrying that key. */
  lemma {:induction false} SelectFirst(es: seq<Event>, key: Event -> string, k: string)
    requires k in KeySet(es, key)
    ensures |Select(es, key, k)| > 0
    ensures exists i | 0 <= i < |es| ::
      && key(es[i]) == k && Select(es, key, k)[0] == es[i]
      && forall j | 0 <= j < i :: key(es[j]) != k
  {
    var prefix := es[..|es| - 1];
    KeySetSnoc(es, key);
    if k in KeySet(prefix, key) {
      SelectFirst(prefix, key, k);
      var i :| 0 <= i < |prefix| && key(prefix[i]) == k && Select(prefix, key, k)[0] == prefix[i]
        && forall j | 0 <= j < i :: key(prefix[j]) != k;
      assert es[i] == prefix[i];
      assert forall j | 0 <= j < i :: es[j] == prefix[j];
    } else {
      SelectAbsent(prefix, key, k);
      var i := |es| - 1;
      forall j | 0 <= j < i ensures key(es[j]) != k {
        assert es[j] in prefix;
      }
      assert Select(es, key, k)[0] == es[i];
    }
  }

  /** Never more distinct keys than events. */
  lemma {:induction false} DistinctBound(es: seq<Event>, key: Event -> string)
    ensures |DistinctKeys(es, key)| <= |es|
  {
    if |es| > 0 {
      DistinctBound(es[..|es| - 1], key);
    }
  }

  /** As many distinct keys as keys that occur. */
  lemma DistinctKeysCount(es: seq<Event>, key: Event -> string)
    ensures |DistinctKeys(es, key)| == |KeySet(es, key)|
  {
    var ks := DistinctKeys(es, key);
    DistinctCardinality(ks);
    assert (set k | k in ks) == KeySet(es, key);
  }

  lemma {:induction false} DistinctCardinality(ks: seq<string>)
    requires forall i, j | 0 <= i < j < |ks| :: ks[i] != ks[j]
    ensures |set k | k in ks| == |ks|
  {
    if |ks| > 0 {
      var init := ks[..|ks| - 1];
      DistinctCardinality(init);
      assert (set k | k in ks) == (set k | k in init) + {ks[|ks| - 1]};
      assert ks[|ks| - 1] !in init;
    }
  }

  // ---------------------------------------------------------------------------
  // The entry list of a `groupingBy(key, summarizingDouble(value))` map.

  /** One (key, summary) entry per key that occurs, as the map's `entrySet()` lists them. */
  function SummaryTable(es: seq<Event>, key: Event -> string): (t: seq<(string, Summary)>)
    ensures |t| == |DistinctKeys(es, key)|
    ensures forall i | 0 <= i < |t| :: t[i].0 == DistinctKeys(es, key)[i]
    ensures forall i | 0 <= i < |t| :: t[i].1 == Summary(SumValues(Select(es, key, t[i].0)), |Select(es, key, t[i].0)|)
  {
    var keys := DistinctKeys(es, key);
    var stats := Summarize(es, key);
    SummarizeIsSelect(es, key);
    seq(|keys|, i requires 0 <= i < |keys| => (keys[i], stats[keys[i]]))
  }

  /** Entry keys are distinct, and are exactly the keys that occur. */
  lemma SummaryTableKeys(es: seq<Event>, key: Event -> string)
    ensures forall i, j | 0 <= i < j < |SummaryTable(es, key)| :: SummaryTable(es, key)[i].0 != SummaryTable(es, key)[j].0
    ensures forall k :: k in KeySet(es, key) <==> exists i | 0 <= i < |SummaryTable(es, key)| :: SummaryTable(es, key)[i].0 == k
    ensures |SummaryTable(es, key)| == |KeySet(es, key)|
  {
    DistinctKeysCount(es, key);
    var t := SummaryTable(es, key);
    var ks := DistinctKeys(es, key);
    forall k | k in KeySet(es, key) ensures exists i | 0 <= i < |t| :: t[i].0 == k {
      var i :| 0 <= i < |ks| && ks[i] == k;
      assert t[i].0 == k;
    }
  }

  function TableCount(t: seq<(string, Summary)>): nat {
    if |t| == 0 then 0 else TableCount(t[..|t| - 1]) + t[|t| - 1].1.count
  }

  function TableSum(t: seq<(string, Summary)>): real {
    if |t| == 0 then 0.0 else TableSum(t[..|t| - 1]) + t[|t| - 1].1.sum
  }

  /** The entries' counts add up to the number of events, and their sums to the total value. */
  lemma SummaryTableTotals(es: seq<Event>, key: Event -> string)
    ensures TableCount(SummaryTable(es, key)) == |es|
    ensures TableSum(SummaryTable(es, key)) == SumValues(es)
  {
    GroupsPartition(es, key);
    TableOver(SummaryTable(es, key), DistinctKeys(es, key), es, key);
  }

  lemma {:induction false} TableOver(t: seq<(string, Summary)>, ks: seq<string>, es: seq<Event>, key: Event -> string)
    requires |t| == |ks|
    requires forall i | 0 <= i < |t| :: t[i].0 == ks[i]
    requires forall i | 0 <= i < |t| :: t[i].1 == Summary(SumValues(Select(es, key, t[i].0)), |Select(es, key, t[i].0)|)
    ensures TableCount(t) == CountOver(ks, es, key)
    ensures TableSum(t) == SumOver(ks, es, key)
  {
    if |t| > 0 {
      TableOver(t[..|t| - 1], ks[..|ks| - 1], es, key);
    }
  }
}
