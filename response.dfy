/** The plain-text reply of `GET /ip-prefixes`: the kept prefixes joined by
    single line feeds, or the fetch failure with no body at all. */
module Response {

  import opened Wrappers
  import opened Glob
  import opened Prefixes

  /** `lines` joined by single line feeds: no separator before the first line
      or after the last one. */
  function JoinLines(lines: seq<string>): string
  {
    if |lines| == 0 then []
    else if |lines| == 1 then lines[0]
    else lines[0] + [LineFeed] + JoinLines(lines[1..])
  }

  /** `text` cut at every line feed; the inverse of `JoinLines` on lines
      without a line feed. */
  function SplitLines(text: string): (lines: seq<string>)
    ensures |lines| >= 1
  {
    if text == [] then [[]]
    else
      var rest := SplitLines(text[1..]);
      if text[0] == LineFeed then [[]] + rest
      else [[text[0]] + rest[0]] + rest[1..]
  }

  /** Number of occurrences of `c` in `s`. */
  function Occurrences(s: string, c: char): nat
  {
    if s == [] then 0 else (if s[0] == c then 1 else 0) + Occurrences(s[1..], c)
  }

  /** The reply to one request. A failed fetch or decode gives the failure
      and no body; otherwise the body holds one line per kept prefix. */
  function Reply(upstream: Result<IpRanges, FetchError>, filter: RegionFilter): (r: Result<string, FetchError>)
    ensures r.Failure? <==> upstream.Failure?
  {
    match FetchAndFilterPrefixes(upstream, filter)
    case Failure(e) => Failure(e)
    case Success(kept) => Success(JoinLines(kept))
  }

  // ---------------------------------------------------------------------------
  // Joining and splitting
  // ---------------------------------------------------------------------------

  /** Lines that are all non-empty join to the empty body only when there are none. */
  lemma {:induction false} JoinEmpty(lines: seq<string>)
    requires forall k :: 0 <= k < |lines| ==> lines[k] != []
    ensures JoinLines(lines) == [] <==> lines == []
  {
    if |lines| > 1 {
      assert lines[0] != [];
    }
  }

  /** Splitting text whose head holds no line feed extends the first piece. */
  lemma {:induction false} SplitAfterLine(line: string, text: string)
    requires LineFeed !in line
    ensures SplitLines(line + text) == [line + SplitLines(text)[0]] + SplitLines(text)[1..]
    decreases |line|
  {
    if line != [] {
      var whole := line + text;
      assert whole[0] == line[0] && whole[1..] == line[1..] + text;
      assert LineFeed !in line[1..] by {
        forall i | 0 <= i < |line[1..]| ensures line[1..][i] != LineFeed {
          assert line[1..][i] == line[i + 1];
        }
      }
      SplitAfterLine(line[1..], text);
      assert [line[0]] + (line[1..] + SplitLines(text)[0]) == line + SplitLines(text)[0];
    } else {
      var pieces := SplitLines(text);
      assert line + text == text;
      assert line + pieces[0] == pieces[0];
      assert pieces == [pieces[0]] + pieces[1..];
    }
  }

  /** Splitting the body gives back the lines, when there is at least one and
      none holds a line feed. */
  lemma {:induction false} SplitJoin(lines: seq<string>)
    requires |lines| >= 1
    requires forall k :: 0 <= k < |lines| ==> LineFeed !in lines[k]
    ensures SplitLines(JoinLines(lines)) == lines
  {
    if |lines| == 1 {
      SplitAfterLine(lines[0], []);
      assert lines[0] + [] == lines[0];
    } else {
      SplitJoin(lines[1..]);
      var rest := JoinLines(lines[1..]);
      assert lines[0] + [LineFeed] + rest == lines[0] + ([LineFeed] + rest);
      SplitAfterLine(lines[0], [LineFeed] + rest);
      assert ([LineFeed] + rest)[1..] == rest;
      assert lines[0] + [] == lines[0];
      assert lines == [lines[0]] + lines[1..];
    }
  }

  /** Joining the pieces of any text gives the text back. */
  lemma {:induction false} JoinSplit(text: string)
    ensures JoinLines(SplitLines(text)) == text
  {
    if text != [] {
      var rest := SplitLines(text[1..]);
      JoinSplit(text[1..]);
      if text[0] == LineFeed {
        var pieces := [[]] + rest;
        assert pieces[1..] == rest;
        assert JoinLines(pieces) == [] + [LineFeed] + JoinLines(rest);
      } else {
        var pieces := [[text[0]] + rest[0]] + rest[1..];
        assert pieces[1..] == rest[1..];
        if |rest| == 1 {
          assert JoinLines(rest) == rest[0];
        } else {
          assert JoinLines(rest) == rest[0] + [LineFeed] + JoinLines(rest[1..]);
        }
      }
      assert text == [text[0]] + text[1..];
    }
  }

  /** Occurrences add up over a concatenation. */
  lemma {:induction false} OccurrencesAppend(s: string, t: string, c: char)
    ensures Occurrences(s + t, c) == Occurrences(s, c) + Occurrences(t, c)
  {
    if s == [] {
      assert s + t == t;
    } else {
      assert (s + t)[0] == s[0] && (s + t)[1..] == s[1..] + t;
      OccurrencesAppend(s[1..], t, c);
    }
  }

  /** A string without `c` holds no occurrence of it. */
  lemma {:induction false} NoOccurrences(s: string, c: char)
    requires c !in s
    ensures Occurrences(s, c) == 0
  {
    if s != [] {
      assert c !in s[1..] by {
        forall i | 0 <= i < |s[1..]| ensures s[1..][i] != c {
          assert s[1..][i] == s[i + 1];
        }
      }
      NoOccurrences(s[1..], c);
    }
  }

  /** The body for n lines without line feeds holds n - 1 separators. */
  lemma {:induction false} SeparatorCount(lines: seq<string>)
    requires |lines| >= 1
    requires forall k :: 0 <= k < |lines| ==> LineFeed !in lines[k]
    ensures Occurrences(JoinLines(lines), LineFeed) == |lines| - 1
  {
    NoOccurrences(lines[0], LineFeed);
    if |lines| > 1 {
      SeparatorCount(lines[1..]);
      var rest := JoinLines(lines[1..]);
      OccurrencesAppend(lines[0] + [LineFeed], rest, LineFeed);
      OccurrencesAppend(lines[0], [LineFeed], LineFeed);
      assert Occurrences([LineFeed], LineFeed) == 1;
    }
  }

  /** No trailing line feed: a body made of non-empty lines without line
      feeds ends with the last character of the last line. */
  lemma {:induction false} NoTrailingSeparator(lines: seq<string>)
    requires |lines| >= 1
    requires forall k :: 0 <= k < |lines| ==> lines[k] != [] && LineFeed !in lines[k]
    ensures var body, last := JoinLines(lines), lines[|lines| - 1];
      body != [] && body[|body| - 1] == last[|last| - 1] && body[|body| - 1] != LineFeed
  {
    var last := lines[|lines| - 1];
    assert last[|last| - 1] in last;
    if |lines| > 1 {
      NoTrailingSeparator(lines[1..]);
      assert lines[1..][|lines| - 2] == last;
    }
  }

  /** Zero matches give the empty body, and, when every prefix is non-empty,
      only zero matches do. */
  lemma ReplyEmptyIffNoMatch(upstream: Result<IpRanges, FetchError>, filter: RegionFilter)
    requires upstream.Success?
    ensures FilterPrefixes(upstream.value.prefixes, filter) == [] ==> Reply(upstream, filter) == Success([])
    ensures (forall i :: 0 <= i < |upstream.value.prefixes| ==> upstream.value.prefixes[i].ipPrefix != [])
        ==> (Reply(upstream, filter) == Success([]) ==> FilterPrefixes(upstream.value.prefixes, filter) == [])
  {
    var entries := upstream.value.prefixes;
    if forall i :: 0 <= i < |entries| ==> entries[i].ipPrefix != [] {
      FilterIsSelection(entries, filter);
      JoinEmpty(FilterPrefixes(entries, filter));
    }
  }

  /** The body of a successful reply splits back into the kept prefixes. */
  lemma ReplySplitsIntoKeptPrefixes(upstream: Result<IpRanges, FetchError>, filter: RegionFilter)
    requires upstream.Success?
    requires forall i :: 0 <= i < |upstream.value.prefixes| ==> LineFeed !in upstream.value.prefixes[i].ipPrefix
    requires FilterPrefixes(upstream.value.prefixes, filter) != []
    ensures Reply(upstream, filter).Success?
    ensures SplitLines(Reply(upstream, filter).value) == FilterPrefixes(upstream.value.prefixes, filter)
  {
    var entries := upstream.value.prefixes;
    var kept := FilterPrefixes(entries, filter);
    FilterIsSelection(entries, filter);
    SplitJoin(kept);
  }
}
