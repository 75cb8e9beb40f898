/**
 * A worked example: two requests at the same hour, one for an image, one from
 * Firefox and one from Chrome.
 */
module Scenarios {
  import opened Opt
  import opened Tallies
  import opened LogRecords
  import opened Images
  import opened Browsers
  import opened Timestamps
  import opened HourlyHits

  function Sample(): seq<LogRecord>
  {
    [LogRecord("/a.jpg", "2024-01-01 10:00:00", "Mozilla Firefox/1.0"),
     LogRecord("/b.html", "2024-01-01 10:00:00", "Chrome/1.0")]
  }

  /** One of the two requests asks for an image: 50 percent. */
  lemma SampleImages()
    ensures ImageReport(Sample()) == Share(1, 2)
    ensures Percent(1, 2) == 50.0
  {
    var data := Sample();
    assert IsImagePath(data[0].path) by {
      assert data[0].path == "/a" + "." + "jpg" + "";
      ImagePathFromParts("/a", "jpg", "");
    }
    assert !IsImagePath(data[1].path) by {
      assert data[1].path[|data[1].path| - 4] == 'h';
    }
    assert data[..1] == [data[0]];
    assert [data[0]][..0] == [];
  }

  /** A token differs from the text at `i` in its first or second letter, so it does not occur there. */
  lemma Mismatch(s: string, i: nat, b: Browser)
    requires i + 1 < |s| && (s[i] != Token(b)[0] || s[i + 1] != Token(b)[1])
    ensures !OccursAt(s, i, b)
  {
    if i + |Token(b)| <= |s| {
      var w := s[i..i + |Token(b)|];
      assert w[0] == s[i] && w[1] == s[i + 1];
    }
  }

  /** The search skips the `Mozilla ` prefix and finds Firefox. */
  lemma MozillaFirefox()
    ensures FindBrowser("Mozilla Firefox/1.0") == Some(Firefox)
  {
    var f := "Mozilla Firefox/1.0";
    forall j: nat, b | j < 8 ensures !OccursAt(f, j, b) {
      Mismatch(f, j, b);
    }
    assert f[8..15] == "Firefox";
    LeftmostFound(f, 8, Firefox);
  }

  lemma SampleTags()
    ensures RecordTags(Sample()) == [Some(Firefox), Some(Chrome)]
  {
    var data := Sample();
    MozillaFirefox();
    assert OccursAt(data[1].browserField, 0, Chrome);
    LeftmostFound(data[1].browserField, 0, Chrome);
  }

  lemma SampleBrowserTally()
    ensures BrowserTally(Sample()) == [Entry(Firefox, 1), Entry(Chrome, 1)]
  {
    SampleTags();
    assert [Some(Firefox), Some(Chrome)] == [Some(Firefox)] + [Some(Chrome)];
    PresentSnoc([Some(Firefox)], Some(Chrome));
    PresentSnoc([], Some(Firefox));
    assert Tags(Sample()) == [Firefox] + [Chrome];
    TallySnoc([Firefox], Chrome);
    TallySnoc([], Firefox);
  }

  /** Firefox and Chrome tie with one hit each; Firefox, seen first, is reported. */
  lemma SampleBrowsers()
    ensures BrowserReportOf(Sample()) == MostPopular(Firefox, 1)
  {
    SampleBrowserTally();
    assert MostCommonIndex([Entry(Firefox, 1), Entry(Chrome, 1)]) == 0;
  }

  lemma PadYear()
    ensures Pad(2024, 4) == "2024"
  {
    assert Pad(0, 0) == "";
    assert Pad(2, 1) == "2";
    assert Pad(20, 2) == "20";
    assert Pad(202, 3) == "202";
  }

  lemma PadTwo(n: nat)
    requires n < 10
    ensures Pad(n, 2) == ['0', ('0' as int + n) as char]
  {
    assert Pad(0, 0) == "";
    assert Pad(0, 1) == "0";
  }

  lemma PadTen()
    ensures Pad(10, 2) == "10"
  {
    assert Pad(0, 0) == "";
    assert Pad(1, 1) == "1";
  }

  lemma FormatSample()
    ensures Valid(DateTime(2024, 1, 1, 10, 0, 0))
    ensures Format(DateTime(2024, 1, 1, 10, 0, 0)) == "2024-01-01 10:00:00"
  {
    var dt := DateTime(2024, 1, 1, 10, 0, 0);
    assert DaysInMonth(2024, 1) == 31;
    PadYear();
    PadTwo(1);
    PadTwo(0);
    PadTen();
    assert Format(dt) == "2024" + "-" + "01" + "-" + "01" + " " + "10" + ":" + "00" + ":" + "00";
    SampleText();
  }

  lemma SampleText()
    ensures "2024" + "-" + "01" + "-" + "01" + " " + "10" + ":" + "00" + ":" + "00" == "2024-01-01 10:00:00"
  {
  }

  /** The sample timestamp is the formatted form of a valid date-time at hour 10. */
  lemma SampleTimestamp()
    ensures ParseHour("2024-01-01 10:00:00") == Some(10)
  {
    FormatSample();
    ParseFormat(DateTime(2024, 1, 1, 10, 0, 0));
  }

  lemma SampleParsedHours()
    ensures ParsedHours(Sample()) == [10, 10]
  {
    SampleTimestamp();
    assert RecordHours(Sample()) == [Some(10)] + [Some(10)];
    PresentSnoc([Some(10)], Some(10));
    PresentSnoc([], Some(10));
  }

  /** Both requests fall in hour 10. */
  lemma SampleHours()
    ensures HourlyReportOf(Sample()) == Ranking([Entry(10, 2)])
  {
    SampleParsedHours();
    assert [10, 10] == [10] + [10];
    TallySnoc([10], 10);
    TallySnoc([], 10);
    assert Tally([10, 10]) == [Entry(10, 2)];
  }
}
