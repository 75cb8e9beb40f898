/**
 * The browser-popularity analyzer: each record's user-agent field is searched
 * for the leftmost of four browser tokens, the tags found are tallied in the
 * order first seen, and the first tag with the largest count is reported.
 */
module Browsers {
  import opened Opt
  import opened Tallies
  import opened LogRecords

  datatype Browser = Firefox | Chrome | Safari | MSIE

  /** The exact, case-sensitive text of each token. */
  function Token(b: Browser): string
  {
    match b
    case Firefox => "Firefox"
    case Chrome => "Chrome"
    case Safari => "Safari"
    case MSIE => "MSIE"
  }

  /** The token of `b` occurs in `s` starting at position `i`. */
  predicate OccursAt(s: string, i: nat, b: Browser)
  {
    i + |Token(b)| <= |s| && s[i..i + |Token(b)|] == Token(b)
  }

  /** The alternation `Firefox|Chrome|Safari|MSIE` tried at position `i`, alternatives in order. */
  function TagAt(s: string, i: nat): Option<Browser>
  {
    if OccursAt(s, i, Firefox) then Some(Firefox)
    else if OccursAt(s, i, Chrome) then Some(Chrome)
    else if OccursAt(s, i, Safari) then Some(Safari)
    else if OccursAt(s, i, MSIE) then Some(MSIE)
    else None
  }

  /** Where the search starting at `i` stops: the first position from `i` on where
      the alternation matches, or the end of the text. */
  function MatchPos(s: string, i: nat): (k: nat)
    requires i <= |s|
    ensures i <= k <= |s|
    ensures forall j :: i <= j < k ==> TagAt(s, j).None?
    ensures k < |s| ==> TagAt(s, k).Some?
    decreases |s| - i
  {
    if i == |s| || TagAt(s, i).Some? then i else MatchPos(s, i + 1)
  }

  /** The tag of a user-agent field (`search(...).group(1)`), or None when no token occurs in it. */
  function FindBrowser(field: string): (r: Option<Browser>)
    ensures r.Some? ==> exists k: nat :: OccursAt(field, k, r.value) && NoTokenBefore(field, k)
    ensures r.None? ==> forall k: nat, b :: !OccursAt(field, k, b)
  {
    var k := MatchPos(field, 0);
    NothingBeforeMatchPos(field);
    if k < |field| then
      TagAtOccurrence(field, k, TagAt(field, k).value);
      TagAt(field, k)
    else None
  }

  // ---------------------------------------------------------------------------
  // The token search

  /** At most one token starts at any position, since the four start with different letters. */
  lemma OneTokenPerPosition(s: string, i: nat, b: Browser, b': Browser)
    requires OccursAt(s, i, b) && OccursAt(s, i, b')
    ensures b == b'
  {
    assert s[i] == Token(b)[0] by { assert s[i..i + |Token(b)|][0] == s[i]; }
    assert s[i] == Token(b')[0] by { assert s[i..i + |Token(b')|][0] == s[i]; }
  }

  /** The alternation at a position yields exactly the token that occurs there. */
  lemma TagAtOccurrence(s: string, i: nat, b: Browser)
    ensures TagAt(s, i) == Some(b) <==> OccursAt(s, i, b)
  {
    if OccursAt(s, i, b) && TagAt(s, i).Some? {
      OneTokenPerPosition(s, i, b, TagAt(s, i).value);
    }
  }

  /** No token starts before position `k`. */
  predicate NoTokenBefore(s: string, k: nat)
  {
    forall j: nat, b :: j < k ==> !OccursAt(s, j, b)
  }

  /** No token starts before the position where the search stops. */
  lemma NothingBeforeMatchPos(field: string)
    ensures NoTokenBefore(field, MatchPos(field, 0))
  {
    forall j: nat, b' | j < MatchPos(field, 0) ensures !OccursAt(field, j, b') {
      TagAtOccurrence(field, j, b');
    }
  }

  /** The tag of a field is the token occurring leftmost in it. */
  lemma FindBrowserLeftmost(field: string, b: Browser)
    ensures FindBrowser(field) == Some(b) <==>
              exists k: nat :: OccursAt(field, k, b) && NoTokenBefore(field, k)
  {
    if FindBrowser(field) == Some(b) {
      FindBrowserFound(field, b);
    }
    if exists k: nat :: OccursAt(field, k, b) && NoTokenBefore(field, k) {
      var k: nat :| OccursAt(field, k, b) && NoTokenBefore(field, k);
      LeftmostFound(field, k, b);
    }
  }

  lemma FindBrowserFound(field: string, b: Browser)
    requires FindBrowser(field) == Some(b)
    ensures OccursAt(field, MatchPos(field, 0), b) && NoTokenBefore(field, MatchPos(field, 0))
  {
    NothingBeforeMatchPos(field);
    TagAtOccurrence(field, MatchPos(field, 0), b);
  }

  lemma LeftmostFound(field: string, k: nat, b: Browser)
    requires OccursAt(field, k, b) && NoTokenBefore(field, k)
    ensures FindBrowser(field) == Some(b)
  {
    var m := MatchPos(field, 0);
    TagAtOccurrence(field, k, b);
    assert m <= k;
    var c := TagAt(field, m).value;
    TagAtOccurrence(field, m, c);
    assert !(m < k);
  }

  /** A field has no tag exactly when no token occurs anywhere in it. */
  lemma FindBrowserNone(field: string)
    ensures FindBrowser(field) == None <==> forall k: nat, b :: !OccursAt(field, k, b)
  {
    var m := MatchPos(field, 0);
    if FindBrowser(field) == None {
      forall k: nat, b ensures !OccursAt(field, k, b) {
        if k < |field| { TagAtOccurrence(field, k, b); }
      }
    } else {
      FindBrowserLeftmost(field, FindBrowser(field).value);
    }
  }

  // ---------------------------------------------------------------------------
  // The tally

  function Tag(r: LogRecord): Option<Browser>
  {
    FindBrowser(r.browserField)
  }

  /** Each record's tag, None for records without one. */
  function RecordTags(data: seq<LogRecord>): (tags: seq<Option<Browser>>)
    ensures |tags| == |data| && forall i :: 0 <= i < |data| ==> tags[i] == Tag(data[i])
  {
    seq(|data|, i requires 0 <= i < |data| => Tag(data[i]))
  }

  /** The tags of the records that have one, in record order (the generator fed to the counter). */
  function Tags(data: seq<LogRecord>): seq<Browser>
  {
    Present(RecordTags(data))
  }

  /** The counter built over the tags. */
  function BrowserTally(data: seq<LogRecord>): Table<Browser>
  {
    Tally(Tags(data))
  }

  /** The number of records tagged `b`. */
  function TagCount(data: seq<LogRecord>, b: Browser): nat
  {
    if data == [] then 0
    else TagCount(data[..|data| - 1], b) + (if Tag(data[|data| - 1]) == Some(b) then 1 else 0)
  }

  /** The number of records with any tag. */
  function MatchCount(data: seq<LogRecord>): nat
  {
    if data == [] then 0
    else MatchCount(data[..|data| - 1]) + (if Tag(data[|data| - 1]).Some? then 1 else 0)
  }

  lemma RecordTagsSnoc(data: seq<LogRecord>)
    requires data != []
    ensures RecordTags(data) == RecordTags(data[..|data| - 1]) + [Tag(data[|data| - 1])]
  {
    var n := |data| - 1;
    var a, b := RecordTags(data), RecordTags(data[..n]) + [Tag(data[n])];
    assert |a| == |b|;
    forall i | 0 <= i < |a| ensures a[i] == b[i] {
      if i < n {
        assert data[..n][i] == data[i];
      }
    }
  }

  /** The tag sequence holds each browser as often as records are tagged with it. */
  lemma {:induction false} TagsMultiset(data: seq<LogRecord>, b: Browser)
    ensures multiset(Tags(data))[b] == TagCount(data, b)
  {
    PresentMultiset(RecordTags(data), b);
    RecordTagsMultiset(data, b);
  }

  lemma {:induction false} RecordTagsMultiset(data: seq<LogRecord>, b: Browser)
    ensures multiset(RecordTags(data))[Some(b)] == TagCount(data, b)
  {
    if data != [] {
      RecordTagsMultiset(data[..|data| - 1], b);
      RecordTagsSnoc(data);
    }
  }

  /** The tag sequence has one element per tagged record. */
  lemma {:induction false} TagsLength(data: seq<LogRecord>)
    ensures |Tags(data)| == MatchCount(data) <= |data|
  {
    if data != [] {
      var init := data[..|data| - 1];
      TagsLength(init);
      RecordTagsSnoc(data);
      PresentSnoc(RecordTags(init), Tag(data[|data| - 1]));
    }
  }

  /** The counter holds, for each browser, the number of records tagged with it. */
  lemma BrowserTallyCounts(data: seq<LogRecord>, b: Browser)
    ensures CountOf(BrowserTally(data), b) == TagCount(data, b)
  {
    TallyCountOf(Tags(data), b);
    TagsMultiset(data, b);
  }

  /** The counts add up to the number of tagged records, which is at most the number of records. */
  lemma BrowserTallyTotal(data: seq<LogRecord>)
    ensures Total(BrowserTally(data)) == MatchCount(data) <= |data|
  {
    TallyTotal(Tags(data));
    TagsLength(data);
  }

  // ---------------------------------------------------------------------------
  // The report

  datatype BrowserReport = NoBrowserRecords | NoRecognizedBrowser | MostPopular(browser: Browser, hits: nat)

  /** No records: nothing to count. No tagged record: no recognisable browser. Otherwise
      the entry `most_common(1)` returns from the counter. */
  function BrowserReportOf(data: seq<LogRecord>): (r: BrowserReport)
    ensures r.NoBrowserRecords? <==> data == []
    ensures r.NoRecognizedBrowser? <==> data != [] && MatchCount(data) == 0
    ensures r.MostPopular? ==> 1 <= r.hits <= MatchCount(data)
  {
    if data == [] then NoBrowserRecords
    else
      var t := BrowserTally(data);
      BrowserTallyTotal(data);
      if t == [] then NoRecognizedBrowser
      else
        var k := MostCommonIndex(t);
        TallyWellFormed(Tags(data));
        CountAtMostTotal(t, k);
        MostPopular(t[k].key, t[k].count)
  }

  /** The reported browser has the largest number of tagged records; among browsers
      tied with it, it is the one whose first tagged record comes first. */
  lemma MostPopularIsFirstMaximum(data: seq<LogRecord>)
    ensures BrowserReportOf(data).NoBrowserRecords? <==> data == []
    ensures BrowserReportOf(data).NoRecognizedBrowser? <==> data != [] && MatchCount(data) == 0
    ensures BrowserReportOf(data).MostPopular? ==>
              var b, n := BrowserReportOf(data).browser, BrowserReportOf(data).hits;
              n == TagCount(data, b) >= 1 &&
              (forall b' :: TagCount(data, b') <= n) &&
              (forall b' :: b' != b && TagCount(data, b') == n ==>
                 Some(b) in RecordTags(data) && Some(b') in RecordTags(data) &&
                 FirstIndex(RecordTags(data), Some(b)) < FirstIndex(RecordTags(data), Some(b')))
  {
    var s := Tags(data);
    var t := BrowserTally(data);
    BrowserTallyTotal(data);
    TallyTotal(s);
    if data != [] && t != [] {
      var k := MostCommonIndex(t);
      var b, n := t[k].key, t[k].count;
      TallyWellFormed(s);
      TallyListsElements(s);
      TallyFirstSeenOrder(s);
      CountOfListed(t, k);
      BrowserTallyCounts(data, b);
      forall b' ensures TagCount(data, b') <= n
        && (b' != b && TagCount(data, b') == n ==>
              Some(b) in RecordTags(data) && Some(b') in RecordTags(data) &&
              FirstIndex(RecordTags(data), Some(b)) < FirstIndex(RecordTags(data), Some(b')))
      {
        BrowserTallyCounts(data, b');
        if HasKey(t, b') {
          var j :| 0 <= j < |t| && t[j].key == b';
          CountOfListed(t, j);
          if b' != b && TagCount(data, b') == n {
            assert j != k;
            PresentFirstSeen(RecordTags(data), b, b');
          }
        } else {
          CountOfUnlisted(t, b');
        }
      }
    } else if data != [] {
      assert Total(t) == 0;
    }
  }
}
