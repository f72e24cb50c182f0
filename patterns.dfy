/**
 * The post-query half of `TripAnalysisController::suspiciousPatterns`: the rows the
 * grouped query returns (one per sensor type and reasons list, with its count and
 * average confidence) are split into one entry per sensor type and single reason,
 * the entries sum the frequencies and average the averages, and the result is
 * sorted by frequency, highest first, and cut to the limit.
 *
 * A PHP array with string keys is an ordered map; here it is the sequence of its
 * keys in insertion order and a map from each key to its entry.
 */
module Patterns {

  /** The `reasons` column after `json_decode`: a list of reasons, or anything else. */
  datatype Reasons = ReasonList(items: seq<string>) | NotAList

  /** A row of the grouped query. */
  datatype Row = Row(sensorType: string, reasons: Reasons, frequency: int, avgConfidence: real)

  /** One reason of one row: the unit the aggregation adds up. */
  datatype Occurrence = Occurrence(sensorType: string, reason: string, frequency: int, score: real)

  /** An entry of `$processedPatterns`, with its running score total and count. */
  datatype Entry = Entry(sensorType: string, reason: string, frequency: int, scoreSum: real, count: nat)

  /** `$processedPatterns`: the keys in insertion order and the entry of each. */
  datatype Grouping = Grouping(order: seq<string>, entries: map<string, Entry>)

  /** An entry of the response: the count field is gone and the score is the average. */
  datatype Pattern = Pattern(sensorType: string, reason: string, frequency: int, avgConfidence: real)

  /** The `limit` input: absent (20 is used), null (no limit), or an integer from 1 to 100. */
  datatype Limit = Absent | NullLimit | Given(n: int)

  const DefaultLimit: nat := 20

  /** What the request validator lets through: `nullable|integer|min:1|max:100`. */
  predicate ValidLimit(limit: Limit) {
    limit.Given? ==> 1 <= limit.n <= 100
  }

  /** `$pattern->sensor_type . '|' . $reason`. */
  function Key(sensorType: string, reason: string): string {
    sensorType + "|" + reason
  }

  function PatternKey(p: Pattern): string {
    Key(p.sensorType, p.reason)
  }

  // ---------------------------------------------------------------------------
  // The reference: what each key adds up to
  // ---------------------------------------------------------------------------

  /** The reasons of a row, each carrying the row's sensor type, frequency and average. */
  function RowOccurrences(row: Row): (r: seq<Occurrence>)
    ensures row.reasons.NotAList? ==> r == []
    ensures row.reasons.ReasonList? ==>
      (|r| == |row.reasons.items|
       && forall i | 0 <= i < |r| ::
            r[i] == Occurrence(row.sensorType, row.reasons.items[i], row.frequency, row.avgConfidence))
  {
    match row.reasons
    case NotAList => []
    case ReasonList(items) =>
      seq(|items|, i requires 0 <= i < |items| => Occurrence(row.sensorType, items[i], row.frequency, row.avgConfidence))
  }

  /** Every reason of every row, in row order. */
  function Occurrences(rows: seq<Row>): seq<Occurrence>
    decreases |rows|
  {
    if rows == [] then [] else Occurrences(rows[..|rows| - 1]) + RowOccurrences(rows[|rows| - 1])
  }

  function OccurrenceKey(o: Occurrence): string {
    Key(o.sensorType, o.reason)
  }

  /** How many occurrences have the key. */
  function CountOf(occ: seq<Occurrence>, key: string): nat
    decreases |occ|
  {
    if occ == [] then 0
    else CountOf(occ[..|occ| - 1], key) + (if OccurrenceKey(occ[|occ| - 1]) == key then 1 else 0)
  }

  /** The frequencies of the occurrences with the key, added up. */
  function FrequencySum(occ: seq<Occurrence>, key: string): int
    decreases |occ|
  {
    if occ == [] then 0
    else FrequencySum(occ[..|occ| - 1], key) + (if OccurrenceKey(occ[|occ| - 1]) == key then occ[|occ| - 1].frequency else 0)
  }

  /** The averages of the occurrences with the key, added up. */
  function ScoreSum(occ: seq<Occurrence>, key: string): real
    decreases |occ|
  {
    if occ == [] then 0.0
    else ScoreSum(occ[..|occ| - 1], key) + (if OccurrenceKey(occ[|occ| - 1]) == key then occ[|occ| - 1].score else 0.0)
  }

  /** Each row adds its reasons after those of the rows before it. */
  lemma {:induction false} OccurrencesAppend(a: seq<Row>, b: seq<Row>)
    ensures Occurrences(a + b) == Occurrences(a) + Occurrences(b)
    decreases |b|
  {
    if b == [] {
      assert a + b == a;
    } else {
      var front := b[..|b| - 1];
      var last := RowOccurrences(b[|b| - 1]);
      assert (a + b)[..|a + b| - 1] == a + front;
      assert (a + b)[|a + b| - 1] == b[|b| - 1];
      assert Occurrences(a + b) == Occurrences(a + front) + last;
      OccurrencesAppend(a, front);
      assert Occurrences(b) == Occurrences(front) + last;
      assert (Occurrences(a) + Occurrences(front)) + last == Occurrences(a) + (Occurrences(front) + last);
    }
  }

  /** A row whose reasons are not an array contributes nothing, wherever it stands. */
  lemma NonArrayIgnored(a: seq<Row>, row: Row, b: seq<Row>)
    requires row.reasons.NotAList?
    ensures Occurrences(a + [row] + b) == Occurrences(a + b)
  {
    OccurrencesAppend(a + [row], b);
    OccurrencesAppend(a, [row]);
    OccurrencesAppend(a, b);
    assert Occurrences([row]) == Occurrences([]) + RowOccurrences(row) by {
      assert [row][..0] == [];
    }
    assert Occurrences(a + [row]) == Occurrences(a);
  }

  // ---------------------------------------------------------------------------
  // The foreach over the rows
  // ---------------------------------------------------------------------------

  /** The body of the inner foreach: create the entry if the key is new, then add to it. */
  function Add(g: Grouping, o: Occurrence): Grouping {
    var key := OccurrenceKey(o);
    var order := if key in g.entries then g.order else g.order + [key];
    var e := if key in g.entries then g.entries[key] else Entry(o.sensorType, o.reason, 0, 0.0, 0);
    Grouping(order, g.entries[key := e.(frequency := e.frequency + o.frequency,
                                        scoreSum := e.scoreSum + o.score,
                                        count := e.count + 1)])
  }

  /** `$processedPatterns` after the occurrences, one by one. */
  function Group(occ: seq<Occurrence>): Grouping
    decreases |occ|
  {
    if occ == [] then Grouping([], map[]) else Add(Group(occ[..|occ| - 1]), occ[|occ| - 1])
  }

  lemma GroupSnoc(occ: seq<Occurrence>, o: Occurrence)
    ensures Group(occ + [o]) == Add(Group(occ), o)
  {
    assert (occ + [o])[..|occ|] == occ;
  }

  /** Keys listed once each, exactly the keys of the map, each entry under its own key. */
  predicate WellGrouped(g: Grouping) {
    (forall i, j | 0 <= i < j < |g.order| :: g.order[i] != g.order[j])
    && (forall k | k in g.entries :: k in g.order)
    && (forall i | 0 <= i < |g.order| :: g.order[i] in g.entries)
    && (forall k | k in g.entries :: Key(g.entries[k].sensorType, g.entries[k].reason) == k)
  }

  /** Adding an occurrence keeps the grouping well formed. */
  lemma AddWell(g: Grouping, o: Occurrence)
    requires WellGrouped(g)
    ensures WellGrouped(Add(g, o))
  {
    var key := OccurrenceKey(o);
    if key !in g.entries {
      assert key !in g.order;
    }
  }

  /** The grouping is well formed: a key is listed once, with its entry. */
  lemma {:induction false} GroupWell(occ: seq<Occurrence>)
    ensures WellGrouped(Group(occ))
    decreases |occ|
  {
    if occ != [] {
      GroupWell(occ[..|occ| - 1]);
      AddWell(Group(occ[..|occ| - 1]), occ[|occ| - 1]);
    }
  }

  /** The grouping has an entry exactly for the keys that occur. */
  lemma {:induction false} GroupKeys(occ: seq<Occurrence>, k: string)
    ensures k in Group(occ).entries <==> CountOf(occ, k) > 0
    decreases |occ|
  {
    if occ != [] {
      GroupKeys(occ[..|occ| - 1], k);
    }
  }

  /** A key that does not occur adds up to nothing. */
  lemma {:induction false} NoOccurrence(occ: seq<Occurrence>, k: string)
    requires CountOf(occ, k) == 0
    ensures FrequencySum(occ, k) == 0 && ScoreSum(occ, k) == 0.0
    decreases |occ|
  {
    if occ != [] {
      NoOccurrence(occ[..|occ| - 1], k);
    }
  }

  /**
   * The entry of a key holds the sums over the occurrences of the key: of their
   * frequencies, of their averages, and their number.
   */
  lemma {:induction false} GroupTotals(occ: seq<Occurrence>, k: string)
    requires k in Group(occ).entries
    ensures Group(occ).entries[k].frequency == FrequencySum(occ, k)
    ensures Group(occ).entries[k].scoreSum == ScoreSum(occ, k)
    ensures Group(occ).entries[k].count == CountOf(occ, k)
    decreases |occ|
  {
    var front := occ[..|occ| - 1];
    var o := occ[|occ| - 1];
    if k in Group(front).entries {
      GroupTotals(front, k);
    } else {
      GroupKeys(front, k);
      NoOccurrence(front, k);
    }
  }

  // ---------------------------------------------------------------------------
  // array_map, usort and array_slice
  // ---------------------------------------------------------------------------

  /** The average of an entry: the score total over the count, or 0 with no count. */
  function Finished(e: Entry): Pattern {
    Pattern(e.sensorType, e.reason, e.frequency, if e.count > 0 then e.scoreSum / (e.count as real) else 0.0)
  }

  /** `array_map` over the entries, in insertion order. */
  function Finalize(g: Grouping): (r: seq<Pattern>)
    requires WellGrouped(g)
    ensures |r| == |g.order|
    ensures forall i | 0 <= i < |r| :: r[i] == Finished(g.entries[g.order[i]]) && PatternKey(r[i]) == g.order[i]
    ensures DistinctKeys(r)
  {
    seq(|g.order|, i requires 0 <= i < |g.order| => Finished(g.entries[g.order[i]]))
  }

  predicate NonIncreasing(s: seq<Pattern>) {
    forall i, j | 0 <= i < j < |s| :: s[i].frequency >= s[j].frequency
  }

  predicate DistinctKeys(s: seq<Pattern>) {
    forall i, j | 0 <= i < j < |s| :: PatternKey(s[i]) != PatternKey(s[j])
  }

  /** Insert after every element of at least the same frequency, so equal ones keep their order. */
  function Insert(s: seq<Pattern>, p: Pattern): seq<Pattern>
    decreases |s|
  {
    if s == [] then [p]
    else if s[|s| - 1].frequency >= p.frequency then s + [p]
    else Insert(s[..|s| - 1], p) + [s[|s| - 1]]
  }

  /** `usort` with `$b['frequency'] - $a['frequency']`: a stable sort, highest frequency first. */
  function SortByFrequency(s: seq<Pattern>): seq<Pattern>
    decreases |s|
  {
    if s == [] then [] else Insert(SortByFrequency(s[..|s| - 1]), s[|s| - 1])
  }

  lemma {:induction false} InsertElements(s: seq<Pattern>, p: Pattern)
    ensures multiset(Insert(s, p)) == multiset(s) + multiset{p}
    decreases |s|
  {
    if s != [] && s[|s| - 1].frequency < p.frequency {
      var front := s[..|s| - 1];
      assert s == front + [s[|s| - 1]];
      InsertElements(front, p);
    }
  }

  /** An element of the insertion is an element of the sequence or the one inserted. */
  lemma InsertMember(s: seq<Pattern>, p: Pattern, x: Pattern)
    requires x in Insert(s, p)
    ensures x in s || x == p
  {
    InsertElements(s, p);
    assert x in multiset(Insert(s, p));
  }

  /** Inserting into a sorted sequence keeps it sorted. */
  lemma {:induction false} InsertSorted(s: seq<Pattern>, p: Pattern)
    requires NonIncreasing(s)
    ensures NonIncreasing(Insert(s, p))
    decreases |s|
  {
    if s != [] && s[|s| - 1].frequency < p.frequency {
      var front := s[..|s| - 1];
      var last := s[|s| - 1];
      InsertSorted(front, p);
      var r0 := Insert(front, p);
      forall i | 0 <= i < |r0|
        ensures r0[i].frequency >= last.frequency
      {
        InsertMember(front, p, r0[i]);
        if r0[i] != p {
          var k :| 0 <= k < |front| && front[k] == r0[i];
          assert s[k] == front[k];
        }
      }
      assert Insert(s, p) == r0 + [last];
    }
  }

  /** Inserting a pattern of a new key keeps the keys distinct. */
  lemma {:induction false} InsertDistinct(s: seq<Pattern>, p: Pattern)
    requires DistinctKeys(s) && forall x | x in s :: PatternKey(x) != PatternKey(p)
    ensures DistinctKeys(Insert(s, p))
    decreases |s|
  {
    if s != [] && s[|s| - 1].frequency < p.frequency {
      var front := s[..|s| - 1];
      var last := s[|s| - 1];
      assert forall x | x in front :: x in s;
      InsertDistinct(front, p);
      var r0 := Insert(front, p);
      forall i | 0 <= i < |r0|
        ensures PatternKey(r0[i]) != PatternKey(last)
      {
        InsertMember(front, p, r0[i]);
        if r0[i] != p {
          var k :| 0 <= k < |front| && front[k] == r0[i];
          assert s[k] == front[k];
        }
      }
      assert Insert(s, p) == r0 + [last];
    }
  }

  /** The sort returns its input, rearranged. */
  lemma {:induction false} SortElements(s: seq<Pattern>)
    ensures multiset(SortByFrequency(s)) == multiset(s)
    decreases |s|
  {
    if s != [] {
      var front := s[..|s| - 1];
      SortElements(front);
      InsertElements(SortByFrequency(front), s[|s| - 1]);
      assert s == front + [s[|s| - 1]];
    }
  }

  /** The sort puts the highest frequency first. */
  lemma {:induction false} SortSorted(s: seq<Pattern>)
    ensures NonIncreasing(SortByFrequency(s))
    decreases |s|
  {
    if s != [] {
      SortSorted(s[..|s| - 1]);
      InsertSorted(SortByFrequency(s[..|s| - 1]), s[|s| - 1]);
    }
  }

  /** The sort keeps the keys distinct. */
  lemma {:induction false} SortDistinct(s: seq<Pattern>)
    requires DistinctKeys(s)
    ensures DistinctKeys(SortByFrequency(s))
    decreases |s|
  {
    if s != [] {
      var front := s[..|s| - 1];
      var last := s[|s| - 1];
      var sorted := SortByFrequency(front);
      SortDistinct(front);
      SortElements(front);
      forall x | x in sorted
        ensures PatternKey(x) != PatternKey(last)
      {
        assert x in multiset(front);
        var k :| 0 <= k < |front| && front[k] == x;
        assert s[k] == x;
      }
      InsertDistinct(sorted, last);
    }
  }

  /** The sort returns its input, highest frequency first, its keys still distinct. */
  lemma SortProperties(s: seq<Pattern>)
    ensures NonIncreasing(SortByFrequency(s))
    ensures multiset(SortByFrequency(s)) == multiset(s)
    ensures DistinctKeys(s) ==> DistinctKeys(SortByFrequency(s))
  {
    SortElements(s);
    SortSorted(s);
    if DistinctKeys(s) {
      SortDistinct(s);
    }
  }

  /** `array_slice($finalPatterns, 0, $limit)`, with the limit defaulting to 20. */
  function Slice(s: seq<Pattern>, limit: Limit): (r: seq<Pattern>)
    requires ValidLimit(limit)
    ensures limit.NullLimit? ==> r == s
    ensures var n := if limit.Absent? then DefaultLimit else if limit.Given? then limit.n else |s|;
      |r| == (if |s| < n then |s| else n) && r == s[..|r|]
  {
    match limit
    case NullLimit => s
    case Absent => if |s| < DefaultLimit then s else s[..DefaultLimit]
    case Given(n) => if |s| < n then s else s[..n]
  }

  /** The response's `patterns` for the rows and the limit. */
  function Patterns(rows: seq<Row>, limit: Limit): seq<Pattern>
    requires ValidLimit(limit)
  {
    var g := Group(Occurrences(rows));
    GroupWell(Occurrences(rows));
    Slice(SortByFrequency(Finalize(g)), limit)
  }

  // ---------------------------------------------------------------------------
  // What the response promises
  // ---------------------------------------------------------------------------

  /** The patterns come highest frequency first, one per key. */
  lemma PatternsOrdered(rows: seq<Row>, limit: Limit)
    requires ValidLimit(limit)
    ensures NonIncreasing(Patterns(rows, limit)) && DistinctKeys(Patterns(rows, limit))
  {
    var occ := Occurrences(rows);
    GroupWell(occ);
    SortProperties(Finalize(Group(occ)));
  }

  /**
   * Each pattern is the total of its key: the key occurs, the frequency is the sum
   * of the frequencies of its occurrences, the average is the sum of their averages
   * over their number.
   */
  lemma PatternsTotals(rows: seq<Row>, limit: Limit)
    requires ValidLimit(limit)
    ensures var occ := Occurrences(rows);
      forall p | p in Patterns(rows, limit) ::
        CountOf(occ, PatternKey(p)) > 0
        && p.frequency == FrequencySum(occ, PatternKey(p))
        && p.avgConfidence == ScoreSum(occ, PatternKey(p)) / (CountOf(occ, PatternKey(p)) as real)
  {
    var occ := Occurrences(rows);
    GroupWell(occ);
    var g := Group(occ);
    var f := Finalize(g);
    SortProperties(f);
    forall p | p in Patterns(rows, limit)
      ensures CountOf(occ, PatternKey(p)) > 0
      ensures p.frequency == FrequencySum(occ, PatternKey(p))
      ensures p.avgConfidence == ScoreSum(occ, PatternKey(p)) / (CountOf(occ, PatternKey(p)) as real)
    {
      assert p in SortByFrequency(f);
      assert p in multiset(f);
      var i :| 0 <= i < |f| && f[i] == p;
      assert g.order[i] in g.entries;
      GroupKeys(occ, g.order[i]);
      GroupTotals(occ, g.order[i]);
    }
  }

  /** In a sorted sequence, an element past a prefix has a frequency no higher than the prefix's. */
  lemma PrefixTop(sorted: seq<Pattern>, m: nat, q: Pattern)
    requires NonIncreasing(sorted) && m <= |sorted| && q in sorted
    ensures q in sorted[..m] || forall p | p in sorted[..m] :: p.frequency >= q.frequency
  {
    var j :| 0 <= j < |sorted| && sorted[j] == q;
    if j >= m {
      forall p | p in sorted[..m]
        ensures p.frequency >= q.frequency
      {
        var a :| 0 <= a < m && sorted[..m][a] == p;
      }
    } else {
      assert sorted[..m][j] == q;
    }
  }

  /**
   * Nothing is lost but by the limit: every key that occurs has its pattern in the
   * response, or a frequency no higher than any pattern in the response.
   */
  lemma PatternsTop(rows: seq<Row>, limit: Limit, key: string)
    requires ValidLimit(limit)
    requires key in Group(Occurrences(rows)).entries
    ensures var out := Patterns(rows, limit);
      var q := Finished(Group(Occurrences(rows)).entries[key]);
      q in out || forall p | p in out :: p.frequency >= q.frequency
  {
    var occ := Occurrences(rows);
    GroupWell(occ);
    var g := Group(occ);
    var f := Finalize(g);
    SortProperties(f);
    var sorted := SortByFrequency(f);
    var q := Finished(g.entries[key]);
    var i :| 0 <= i < |g.order| && g.order[i] == key;
    assert f[i] == q;
    assert q in multiset(sorted);
    PrefixTop(sorted, |Patterns(rows, limit)|, q);
  }

  /** The response holds as many patterns as there are keys, up to the limit. */
  lemma PatternsCount(rows: seq<Row>, limit: Limit)
    requires ValidLimit(limit)
    ensures var keys := |Group(Occurrences(rows)).order|;
      var n := if limit.Absent? then DefaultLimit else if limit.Given? then limit.n else keys;
      |Patterns(rows, limit)| == if keys < n then keys else n
  {
    var occ := Occurrences(rows);
    GroupWell(occ);
    var f := Finalize(Group(occ));
    SortProperties(f);
    assert |multiset(SortByFrequency(f))| == |multiset(f)|;
  }

  // ---------------------------------------------------------------------------
  // suspiciousPatterns
  // ---------------------------------------------------------------------------

  /** One pass of the inner foreach: the entry of the key, created if new, takes the row's numbers. */
  method AddReason(order0: seq<string>, entries0: map<string, Entry>, sensorType: string, reason: string,
                   frequency: int, avgConfidence: real)
    returns (order: seq<string>, entries: map<string, Entry>)
    ensures Grouping(order, entries)
      == Add(Grouping(order0, entries0), Occurrence(sensorType, reason, frequency, avgConfidence))
  {
    order, entries := order0, entries0;
    var key := Key(sensorType, reason);
    if key !in entries {
      order := order + [key];
      entries := entries[key := Entry(sensorType, reason, 0, 0.0, 0)];
    }
    var e := entries[key];
    entries := entries[key := e.(frequency := e.frequency + frequency,
                                 scoreSum := e.scoreSum + avgConfidence,
                                 count := e.count + 1)];
  }

  /** The inner foreach: each reason of the row goes into its entry. */
  method AddRow(order0: seq<string>, entries0: map<string, Entry>, row: Row, ghost seen: seq<Occurrence>)
    returns (order: seq<string>, entries: map<string, Entry>)
    requires row.reasons.ReasonList? && Grouping(order0, entries0) == Group(seen)
    ensures Grouping(order, entries) == Group(seen + RowOccurrences(row))
  {
    order, entries := order0, entries0;
    var reasons := row.reasons.items;
    ghost var added := RowOccurrences(row);
    assert seen + added[..0] == seen;
    var j := 0;
    while j < |reasons|
      invariant 0 <= j <= |reasons|
      invariant Grouping(order, entries) == Group(seen + added[..j])
    {
      assert seen + added[..j + 1] == (seen + added[..j]) + [added[j]];
      GroupSnoc(seen + added[..j], added[j]);
      order, entries := AddReason(order, entries, row.sensorType, reasons[j], row.frequency, row.avgConfidence);
      j := j + 1;
    }
    assert added[..j] == added;
  }

  /**
   * The aggregation, step by step: the foreach fills the grouping in place, then the
   * entries are averaged, sorted and cut.
   */
  method SuspiciousPatterns(rows: seq<Row>, limit: Limit) returns (patterns: seq<Pattern>)
    requires ValidLimit(limit)
    ensures patterns == Patterns(rows, limit)
    ensures NonIncreasing(patterns) && DistinctKeys(patterns)
  {
    var order: seq<string> := [];
    var entries: map<string, Entry> := map[];
    var i := 0;
    while i < |rows|
      invariant 0 <= i <= |rows|
      invariant Grouping(order, entries) == Group(Occurrences(rows[..i]))
    {
      var row := rows[i];
      ghost var before := Occurrences(rows[..i]);
      assert rows[..i + 1][..i] == rows[..i];
      assert Occurrences(rows[..i + 1]) == before + RowOccurrences(row);
      if row.reasons.ReasonList? {
        order, entries := AddRow(order, entries, row, before);
      } else {
        assert before + RowOccurrences(row) == before;
      }
      i := i + 1;
    }
    assert rows[..i] == rows;
    GroupWell(Occurrences(rows));
    var finalPatterns := Finalize(Grouping(order, entries));
    finalPatterns := SortByFrequency(finalPatterns);
    patterns := Slice(finalPatterns, limit);
    PatternsOrdered(rows, limit);
  }
}
