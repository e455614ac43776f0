/** Worked examples: the contracts of `Ratings`, `References` and `Bridges` pin down the outcome
    on small concrete inputs. */
module Scenarios {
  import opened Wrappers
  import opened Text
  import opened Ratings
  import opened Rows
  import opened References
  import opened Bridges

  /** A problem URL and the bare slug resolve to the same slug. */
  lemma ReferenceExamples()
    ensures Normalize("problems/two-sum/") == "two-sum"
    ensures Normalize("two-sum") == "two-sum"
  {
    var url := "problems/two-sum/";
    assert url[..|Marker|] == Marker;
    assert SlashFrom(url, 16) == 16;
    assert SlashFrom(url, 13) == 16;
    assert SlashFrom(url, 9) == 16;
    assert FindSegment(url, 0) == Some((0, 16));
    assert url[9..16] == "two-sum";
  }

  /** A problem page as a browser shows it: scheme and host in front, a page name after the slug. */
  const ProblemUrl: string := "https://leetcode.com/" + "problems/" + "two-sum" + "/description/"

  /** A full problem URL resolves to the slug between `problems/` and the next `/`. */
  lemma ProblemUrlExample()
    ensures Normalize(ProblemUrl) == "two-sum"
  {
    UrlHostHasNoMarker();
    FindSegmentSkips(ProblemUrl, 0, 21);
    UrlSegment();
  }

  /** No position inside the scheme and host starts `problems/`: the host holds no `r`, and the
      character after its last position is the `p` of the marker itself. */
  lemma UrlHostHasNoMarker()
    ensures forall k :: 0 <= k < 21 ==> SegmentAt(ProblemUrl, k).None?
  {
    assert 'r' !in "https://leetcode.com/";
    forall k | 0 <= k < 21 ensures SegmentAt(ProblemUrl, k).None? {
      if k < 20 {
        assert ProblemUrl[k + 1] == "https://leetcode.com/"[k + 1];
      }
      assert ProblemUrl[k..k + |Marker|][1] == ProblemUrl[k + 1];
    }
  }

  /** The marker right after the host is followed by `two-sum/`. */
  lemma UrlSegment()
    ensures FindSegment(ProblemUrl, 21) == Some((21, 37))
    ensures ProblemUrl[30..37] == "two-sum"
  {
    assert ProblemUrl[21..30] == Marker;
    assert SlashFrom(ProblemUrl, 37) == 37;
    assert SlashFrom(ProblemUrl, 33) == 37;
    assert SlashFrom(ProblemUrl, 30) == 37;
  }

  /** Three rows of a ratings table, each with its id, slug and rating in the usual columns. */
  const TwoSumLine: string := "1 " + "two-sum" + " 1496.0000 stuff"
  const PathSumLine: string := "64 " + "minimum-path-sum" + " 1650.3333"
  const IslandLine: string := "827 " + "making-a-large-island" + " 2550.1"

  /** The first row yields `two-sum`, its rating with the trailing zeros read away, and id 1;
      the text after the rating is ignored. */
  lemma TwoSumRow()
    ensures ParseLine(TwoSumLine) == Some(Record("two-sum", 1496.0, Some(1)))
  {
    TwoSumLayout();
    TwoSumValues();
    ParseRowAs(TwoSumLine, "1", "two-sum", "1496", "0000", " stuff",
               Record("two-sum", 1496.0, Some(1)));
  }

  /** `TwoSumLine` is a well-formed row. */
  lemma TwoSumLayout()
    ensures TwoSumLine == Row("1", "two-sum", "1496", "0000", " stuff")
    ensures WellFormed("1", "two-sum", "1496", "0000", " stuff")
  {
    assert "two-sum"[3] == '-';
  }

  /** The fields of `TwoSumLine` spell the expected record. */
  lemma TwoSumValues()
    ensures Record("two-sum", 1496.0, Some(1))
         == Record("two-sum", DecimalValue("1496", "0000"), Some(DigitsValue("1")))
  {
    assert DigitsValue("1") == 1 by {
      assert "1"[..0] == "";
    }
    assert DigitsValue("1496") == 1496 by {
      assert "1496"[..3] == "149" && "149"[..2] == "14" && "14"[..1] == "1" && "1"[..0] == "";
    }
    assert DigitsValue("0000") == 0 by {
      assert "0000"[..3] == "000" && "000"[..2] == "00" && "00"[..1] == "0" && "0"[..0] == "";
    }
    assert DecimalValue("1496", "0000") == 1496.0 by {
      assert Pow10(4) == 10000;
    }
  }


  /** The second row yields `minimum-path-sum` with the exact rating 1650.3333 and id 64. */
  lemma PathSumRow()
    ensures ParseLine(PathSumLine) == Some(Record("minimum-path-sum", 1650.3333, Some(64)))
  {
    PathSumLayout();
    PathSumValues();
    ParseRowAs(PathSumLine, "64", "minimum-path-sum", "1650", "3333", "",
               Record("minimum-path-sum", 1650.3333, Some(64)));
  }

  /** `PathSumLine` is a well-formed row. */
  lemma PathSumLayout()
    ensures PathSumLine == Row("64", "minimum-path-sum", "1650", "3333", "")
    ensures WellFormed("64", "minimum-path-sum", "1650", "3333", "")
  {
    assert "minimum-path-sum"[7] == '-';
  }

  /** The fields of `PathSumLine` spell the expected record. */
  lemma PathSumValues()
    ensures Record("minimum-path-sum", 1650.3333, Some(64))
         == Record("minimum-path-sum", DecimalValue("1650", "3333"), Some(DigitsValue("64")))
  {
    assert DigitsValue("64") == 64 by {
      assert "64"[..1] == "6" && "6"[..0] == "";
    }
    assert DigitsValue("1650") == 1650 by {
      assert "1650"[..3] == "165" && "165"[..2] == "16" && "16"[..1] == "1" && "1"[..0] == "";
    }
    assert DigitsValue("3333") == 3333 by {
      assert "3333"[..3] == "333" && "333"[..2] == "33" && "33"[..1] == "3" && "3"[..0] == "";
    }
    assert DecimalValue("1650", "3333") == 1650.3333 by {
      assert Pow10(4) == 10000;
    }
  }


  /** The third row yields `making-a-large-island` with rating 2550.1 and id 827. */
  lemma IslandRow()
    ensures ParseLine(IslandLine) == Some(Record("making-a-large-island", 2550.1, Some(827)))
  {
    IslandLayout();
    IslandValues();
    ParseRowAs(IslandLine, "827", "making-a-large-island", "2550", "1", "",
               Record("making-a-large-island", 2550.1, Some(827)));
  }

  /** `IslandLine` is a well-formed row. */
  lemma IslandLayout()
    ensures IslandLine == Row("827", "making-a-large-island", "2550", "1", "")
    ensures WellFormed("827", "making-a-large-island", "2550", "1", "")
  {
    assert "making-a-large-island"[6] == '-';
  }

  /** The fields of `IslandLine` spell the expected record. */
  lemma IslandValues()
    ensures Record("making-a-large-island", 2550.1, Some(827))
         == Record("making-a-large-island", DecimalValue("2550", "1"), Some(DigitsValue("827")))
  {
    assert DigitsValue("827") == 827 by {
      assert "827"[..2] == "82" && "82"[..1] == "8" && "8"[..0] == "";
    }
    assert DigitsValue("2550") == 2550 by {
      assert "2550"[..3] == "255" && "255"[..2] == "25" && "25"[..1] == "2" && "2"[..0] == "";
    }
    assert DigitsValue("1") == 1 by {
      assert "1"[..0] == "";
    }
    assert DecimalValue("2550", "1") == 2550.1 by {
      assert Pow10(1) == 10;
    }
  }


  /** Three problems; the bridges below `minimum-path-sum` with a window of 200 and a limit of 3
      are exactly `two-sum` (154.3333 easier); the harder island problem and the target itself
      are excluded. */
  method PathSumBridges() returns (r: Result<Suggestion, SuggestError>)
    ensures r == Success(Suggestion([Record("two-sum", 1496.0, Some(1))], 1650.3333))
  {
    var twoSum := Record("two-sum", 1496.0, Some(1));
    var pathSum := Record("minimum-path-sum", 1650.3333, Some(64));
    var island := Record("making-a-large-island", 2550.1, Some(827));
    var index := map["two-sum" := twoSum, "minimum-path-sum" := pathSum, "making-a-large-island" := island];
    assert EligibleKeys(index, 1650.3333, 200) == {"two-sum"};
    r := Suggest(index, "minimum-path-sum", 200, 3);
    var b := r.value.bridges;
    assert |b| == 1 && b[0] in b;
    var k :| k in index && index[k] == b[0];
    assert k in EligibleKeys(index, 1650.3333, 200);
    assert b == [twoSum];
  }

  /** A slug the index does not hold is reported as unknown rather than answered with no bridges. */
  method UnknownTarget() returns (r: Result<Suggestion, SuggestError>)
    ensures r == Failure(UnknownSlug("three-sum"))
  {
    var index := map["two-sum" := Record("two-sum", 1496.0, Some(1))];
    r := Suggest(index, "three-sum", 150, 3);
  }
}
