/**
 * The hourly-hits analyzer: a loop parses each record's timestamp, skips the
 * ones that do not parse, and bumps a per-hour count in a dictionary; the
 * dictionary's items are then ranked by descending count with a stable sort.
 */
module HourlyHits {
  import opened Opt
  import opened Tallies
  import opened LogRecords
  import opened Timestamps

  /** Each record's hour, None for records whose timestamp does not parse. */
  function RecordHours(data: seq<LogRecord>): (hours: seq<Option<nat>>)
    ensures |hours| == |data| && forall i :: 0 <= i < |data| ==> hours[i] == ParseHour(data[i].timestamp)
  {
    seq(|data|, i requires 0 <= i < |data| => ParseHour(data[i].timestamp))
  }

  /** The hours of the records whose timestamp parses, in record order. */
  function ParsedHours(data: seq<LogRecord>): seq<nat>
  {
    Present(RecordHours(data))
  }

  /** The number of records whose timestamp parses to hour `h`. */
  function HitsAt(data: seq<LogRecord>, h: nat): nat
  {
    if data == [] then 0
    else HitsAt(data[..|data| - 1], h) + (if ParseHour(data[|data| - 1].timestamp) == Some(h) then 1 else 0)
  }

  /** The number of records whose timestamp parses. */
  function Parseable(data: seq<LogRecord>): nat
  {
    if data == [] then 0
    else Parseable(data[..|data| - 1]) + (if ParseHour(data[|data| - 1].timestamp).Some? then 1 else 0)
  }

  // ---------------------------------------------------------------------------
  // The counting loop

  predicate Distinct(order: seq<nat>)
  {
    forall i, j :: 0 <= i < j < |order| ==> order[i] != order[j]
  }

  /** The dictionary's items: its keys in insertion order, each with its count. */
  function Items(order: seq<nat>, counts: map<nat, nat>): (t: Table<nat>)
    requires forall h :: h in order ==> h in counts
    ensures |t| == |order| && forall i :: 0 <= i < |order| ==> t[i] == Entry(order[i], counts[order[i]])
  {
    if order == [] then [] else [Entry(order[0], counts[order[0]])] + Items(order[1..], counts)
  }

  /** The per-hour dictionary after the loop: for each record in turn, a timestamp
      that does not parse is skipped, and one that does adds 1 to its hour's count,
      inserting the hour with count 1 the first time it is seen. */
  method CountHours(data: seq<LogRecord>) returns (table: Table<nat>)
    ensures table == Tally(ParsedHours(data))
  {
    var order: seq<nat> := [];
    var counts: map<nat, nat> := map[];
    var i := 0;
    while i < |data|
      invariant 0 <= i <= |data|
      invariant Listed(order, counts)
      invariant Items(order, counts) == Tally(ParsedHours(data[..i]))
    {
      var parsed := ParseHour(data[i].timestamp);
      if parsed.Some? {
        var h := parsed.value;
        if h in counts {
          CountBump(data, i, h, order, counts);
          counts := counts[h := counts[h] + 1];
        } else {
          CountInsert(data, i, h, order, counts);
          order := order + [h];
          counts := counts[h := 1];
        }
      } else {
        CountSkip(data, i, order, counts);
      }
      i := i + 1;
    }
    assert data[..i] == data;
    table := Items(order, counts);
  }

  /** The dictionary's keys are exactly the hours listed, each listed once. */
  ghost predicate Listed(order: seq<nat>, counts: map<nat, nat>)
  {
    (forall h :: h in counts <==> h in order) && Distinct(order)
  }

  /** A turn of the counting loop whose timestamp does not parse leaves the tally
      of the hours parsed so far unchanged. */
  lemma CountSkip(data: seq<LogRecord>, i: nat, order: seq<nat>, counts: map<nat, nat>)
    requires i < |data| && ParseHour(data[i].timestamp).None?
    requires Listed(order, counts)
    requires Items(order, counts) == Tally(ParsedHours(data[..i]))
    ensures Items(order, counts) == Tally(ParsedHours(data[..i + 1]))
  {
    HoursStep(data, i);
  }

  /** A turn whose hour is already a key adds 1 to its count. */
  lemma CountBump(data: seq<LogRecord>, i: nat, h: nat, order: seq<nat>, counts: map<nat, nat>)
    requires i < |data| && ParseHour(data[i].timestamp) == Some(h)
    requires Listed(order, counts) && h in counts
    requires Items(order, counts) == Tally(ParsedHours(data[..i]))
    ensures Listed(order, counts[h := counts[h] + 1])
    ensures Items(order, counts[h := counts[h] + 1]) == Tally(ParsedHours(data[..i + 1]))
  {
    HoursStep(data, i);
    TallySnoc(ParsedHours(data[..i]), h);
    ItemsBumpListed(order, counts, h);
  }

  /** A turn whose hour is new appends it as a key with count 1. */
  lemma CountInsert(data: seq<LogRecord>, i: nat, h: nat, order: seq<nat>, counts: map<nat, nat>)
    requires i < |data| && ParseHour(data[i].timestamp) == Some(h)
    requires Listed(order, counts) && h !in counts
    requires Items(order, counts) == Tally(ParsedHours(data[..i]))
    ensures Listed(order + [h], counts[h := 1])
    ensures Items(order + [h], counts[h := 1]) == Tally(ParsedHours(data[..i + 1]))
  {
    HoursStep(data, i);
    TallySnoc(ParsedHours(data[..i]), h);
    ItemsBumpNew(order, counts, h);
    ListedInsert(order, counts, h);
  }

  lemma ListedInsert(order: seq<nat>, counts: map<nat, nat>, h: nat)
    requires Listed(order, counts) && h !in counts
    ensures Listed(order + [h], counts[h := 1])
  {
    var o := order + [h];
    forall i, j | 0 <= i < j < |o| ensures o[i] != o[j] {
      if j == |order| {
        assert o[i] == order[i] && order[i] in order;
      } else {
        assert o[i] == order[i] && o[j] == order[j];
      }
    }
    forall k ensures k in counts[h := 1] <==> k in o {
      assert k in o <==> k in order || k == h;
    }
  }

  lemma HoursStep(data: seq<LogRecord>, i: nat)
    requires i < |data|
    ensures ParseHour(data[i].timestamp).None? ==> ParsedHours(data[..i + 1]) == ParsedHours(data[..i])
    ensures ParseHour(data[i].timestamp).Some? ==>
              ParsedHours(data[..i + 1]) == ParsedHours(data[..i]) + [ParseHour(data[i].timestamp).value]
  {
    ParsedHoursSnoc(data[..i + 1]);
    assert data[..i + 1][..i] == data[..i];
  }

  lemma ParsedHoursSnoc(data: seq<LogRecord>)
    requires data != []
    ensures var n := |data| - 1;
            ParsedHours(data) ==
              ParsedHours(data[..n]) + (if ParseHour(data[n].timestamp).Some? then [ParseHour(data[n].timestamp).value] else [])
  {
    var n := |data| - 1;
    assert RecordHours(data) == RecordHours(data[..n]) + [ParseHour(data[n].timestamp)];
    PresentSnoc(RecordHours(data[..n]), ParseHour(data[n].timestamp));
  }

  /** Adding 1 to a listed hour is bumping it in the items. */
  lemma ItemsBumpListed(order: seq<nat>, counts: map<nat, nat>, h: nat)
    requires forall k :: k in counts <==> k in order
    requires Distinct(order) && h in order
    ensures Items(order, counts[h := counts[h] + 1]) == Bump(Items(order, counts), h)
  {
    var t := Items(order, counts);
    var p := FirstIndex(order, h);
    BumpListed(t, h, p);
    var u := Items(order, counts[h := counts[h] + 1]);
    var v := t[p := Entry(h, t[p].count + 1)];
    forall i | 0 <= i < |order| ensures u[i] == v[i] {
      if i != p {
        assert order[i] != h;
      }
    }
  }

  /** Inserting a new hour with count 1 is bumping it in the items. */
  lemma ItemsBumpNew(order: seq<nat>, counts: map<nat, nat>, h: nat)
    requires forall k :: k in counts <==> k in order
    requires h !in order
    ensures Items(order + [h], counts[h := 1]) == Bump(Items(order, counts), h)
  {
    var t := Items(order, counts);
    BumpShape(t, h);
    assert !HasKey(t, h) by {
      forall i | 0 <= i < |t| ensures t[i].key != h { assert t[i].key == order[i]; }
    }
  }

  // ---------------------------------------------------------------------------
  // The report

  datatype HourlyReport = NoHourlyData | Ranking(hours: Table<nat>)

  /** No records: nothing to count. Otherwise the dictionary's items sorted by
      descending count, ties kept in insertion order. */
  function HourlyReportOf(data: seq<LogRecord>): (r: HourlyReport)
    ensures r.NoHourlyData? <==> data == []
    ensures r.Ranking? ==> |r.hours| <= Parseable(data) <= |data|
  {
    if data == [] then NoHourlyData
    else
      ParsedHoursLength(data);
      Ranking(SortByCountDesc(Tally(ParsedHours(data))))
  }

  method ReportHourlyHits(data: seq<LogRecord>) returns (report: HourlyReport)
    ensures report == HourlyReportOf(data)
    ensures report.NoHourlyData? <==> data == []
  {
    if data == [] {
      return NoHourlyData;
    }
    var table := CountHours(data);
    report := Ranking(SortByCountDesc(table));
  }

  // ---------------------------------------------------------------------------
  // Properties

  lemma {:induction false} RecordHoursMultiset(data: seq<LogRecord>, h: nat)
    ensures multiset(RecordHours(data))[Some(h)] == HitsAt(data, h)
  {
    if data != [] {
      var n := |data| - 1;
      RecordHoursMultiset(data[..n], h);
      assert RecordHours(data) == RecordHours(data[..n]) + [ParseHour(data[n].timestamp)];
    }
  }

  lemma {:induction false} ParsedHoursLength(data: seq<LogRecord>)
    ensures |ParsedHours(data)| == Parseable(data) <= |data|
  {
    if data != [] {
      ParsedHoursLength(data[..|data| - 1]);
      ParsedHoursSnoc(data);
    }
  }

  /** The hour table: each hour once, each an hour of the day, each with the number of
      records at that hour, the counts adding up to the number of parseable records. */
  lemma HourTable(data: seq<LogRecord>)
    ensures var t := Tally(ParsedHours(data));
            DistinctKeys(t) &&
            (forall i :: 0 <= i < |t| ==> t[i].key < 24 && t[i].count >= 1) &&
            (forall h :: CountOf(t, h) == HitsAt(data, h)) &&
            Total(t) == Parseable(data) <= |data|
  {
    var s := ParsedHours(data);
    var t := Tally(s);
    TallyWellFormed(s);
    TallyListsElements(s);
    TallyTotal(s);
    ParsedHoursLength(data);
    forall h ensures CountOf(t, h) == HitsAt(data, h) {
      TallyCountOf(s, h);
      PresentMultiset(RecordHours(data), h);
      RecordHoursMultiset(data, h);
    }
    forall i | 0 <= i < |t| ensures t[i].key < 24 {
      assert HasKey(t, t[i].key);
      PresentMembership(RecordHours(data), t[i].key);
      var j :| 0 <= j < |data| && RecordHours(data)[j] == Some(t[i].key);
    }
  }

  /** The ranking lists the same entries as the table, by non-increasing count, and
      hours with equal counts in the order of the first record at each of them. */
  lemma RankingOrder(data: seq<LogRecord>)
    requires data != []
    ensures var r := HourlyReportOf(data).hours;
            var hours := RecordHours(data);
            multiset(r) == multiset(Tally(ParsedHours(data))) &&
            SortedByCountDesc(r) &&
            forall i, j :: 0 <= i < j < |r| && r[i].count == r[j].count ==>
              Some(r[i].key) in hours && Some(r[j].key) in hours &&
              FirstIndex(hours, Some(r[i].key)) < FirstIndex(hours, Some(r[j].key))
  {
    var s := ParsedHours(data);
    var t := Tally(s);
    var r := SortByCountDesc(t);
    SortSorted(t);
    SortStable(t);
    TallyFirstSeenOrder(s);
    forall i, j | 0 <= i < j < |r| && r[i].count == r[j].count
      ensures Some(r[i].key) in RecordHours(data) && Some(r[j].key) in RecordHours(data) &&
              FirstIndex(RecordHours(data), Some(r[i].key)) < FirstIndex(RecordHours(data), Some(r[j].key))
    {
      var i', j' :| 0 <= i' < j' < |t| && t[i'] == r[i] && t[j'] == r[j];
      PresentFirstSeen(RecordHours(data), t[i'].key, t[j'].key);
    }
  }
}
