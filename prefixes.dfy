/** The IP-prefix records of the upstream document and the region filter
    applied to them: an optional pattern, with a leading `!` that inverts the
    glob, keeps the `ip_prefix` of every entry whose region it selects, in
    input order and without deduplication. */
module Prefixes {

  import opened Wrappers
  import opened Glob

  /** One upstream record. Only `ipPrefix` and `region` take part in filtering. */
  datatype Prefix = Prefix(ipPrefix: string, region: string, service: string, networkBorderGroup: string)

  /** The decoded upstream document. Only `prefixes` is consumed. */
  datatype IpRanges = IpRanges(syncToken: string, createDate: string, prefixes: seq<Prefix>)

  /** The query parameters of a request: an optional region pattern. */
  datatype RegionFilter = RegionFilter(region: Option<string>)

  /** The single, opaque failure of fetching or decoding the upstream document. */
  datatype FetchError = FetchError

  /** The character that marks a negated pattern. */
  const Negation: char := '!'

  /** True iff `region` satisfies `filter`: the glob after a leading `!`,
      inverted, or the glob of the whole filter otherwise. */
  predicate MatchesRegion(region: string, filter: string)
  {
    if |filter| > 0 && filter[0] == Negation then !WildcardMatch(region, filter[1..])
    else WildcardMatch(region, filter)
  }

  /** True iff the request keeps `entry`: always without a pattern, otherwise
      when the entry's region satisfies the pattern. */
  predicate Selects(filter: RegionFilter, entry: Prefix)
  {
    match filter.region
    case Some(pattern) => MatchesRegion(entry.region, pattern)
    case None => true
  }

  /** The `ip_prefix` of every selected entry, in input order. */
  function FilterPrefixes(entries: seq<Prefix>, filter: RegionFilter): (kept: seq<string>)
    ensures |kept| <= |entries|
  {
    if entries == [] then []
    else (if Selects(filter, entries[0]) then [entries[0].ipPrefix] else [])
         + FilterPrefixes(entries[1..], filter)
  }

  /** Fetch, decode and filter. `upstream` is the outcome of fetching and
      decoding the document; either failure is the one `FetchError`. */
  function FetchAndFilterPrefixes(upstream: Result<IpRanges, FetchError>, filter: RegionFilter)
    : (r: Result<seq<string>, FetchError>)
    ensures r.Failure? <==> upstream.Failure?
    ensures r.Success? ==> |r.value| <= |upstream.value.prefixes|
  {
    match upstream
    case Failure(e) => Failure(e)
    case Success(data) => Success(FilterPrefixes(data.prefixes, filter))
  }

  // ---------------------------------------------------------------------------
  // The pattern grammar
  // ---------------------------------------------------------------------------

  /** A pattern that does not start with `!` is the glob itself. */
  lemma PlainPatternIsGlob(region: string, pattern: string)
    requires pattern == [] || pattern[0] != Negation
    ensures MatchesRegion(region, pattern) == WildcardMatch(region, pattern)
  {
  }

  /** A leading `!` selects exactly the regions the rest of the pattern rejects. */
  lemma NegationIsComplement(region: string, pattern: string)
    ensures MatchesRegion(region, [Negation] + pattern) == !WildcardMatch(region, pattern)
  {
    assert ([Negation] + pattern)[1..] == pattern;
  }

  /** `*` selects every region and `!*` selects none (regions hold no line feed). */
  lemma StarSelectsEveryRegion(region: string)
    requires LineFeed !in region
    ensures MatchesRegion(region, "*") && !MatchesRegion(region, "!*")
  {
    StarMatchesAnyLine(region);
    assert "!*"[1..] == "*";
  }

  // ---------------------------------------------------------------------------
  // The filter pipeline
  // ---------------------------------------------------------------------------

  /** Positions, in increasing order, of the entries `filter` selects. */
  ghost function SelectedPositions(entries: seq<Prefix>, filter: RegionFilter): seq<nat>
  {
    if entries == [] then []
    else
      var last := |entries| - 1;
      SelectedPositions(entries[..last], filter) + (if Selects(filter, entries[last]) then [last] else [])
  }

  /** Filtering distributes over concatenation of the input. */
  lemma {:induction false} FilterAppend(front: seq<Prefix>, back: seq<Prefix>, filter: RegionFilter)
    ensures FilterPrefixes(front + back, filter) == FilterPrefixes(front, filter) + FilterPrefixes(back, filter)
  {
    if front == [] {
      assert front + back == back;
    } else {
      var both := front + back;
      assert both[0] == front[0] && both[1..] == front[1..] + back;
      FilterAppend(front[1..], back, filter);
      var head := if Selects(filter, front[0]) then [front[0].ipPrefix] else [];
      assert FilterPrefixes(both, filter) == head + FilterPrefixes(front[1..] + back, filter);
      assert FilterPrefixes(front, filter) == head + FilterPrefixes(front[1..], filter);
    }
  }

  /** Selected positions lie inside the input and strictly increase. */
  lemma {:induction false} PositionsIncrease(entries: seq<Prefix>, filter: RegionFilter)
    ensures forall k :: 0 <= k < |SelectedPositions(entries, filter)| ==> SelectedPositions(entries, filter)[k] < |entries|
    ensures forall j, k :: 0 <= j < k < |SelectedPositions(entries, filter)|
              ==> SelectedPositions(entries, filter)[j] < SelectedPositions(entries, filter)[k]
    decreases |entries|
  {
    if entries != [] {
      var last := |entries| - 1;
      var front := entries[..last];
      PositionsIncrease(front, filter);
      var pos0 := SelectedPositions(front, filter);
      assert SelectedPositions(entries, filter) == pos0 + (if Selects(filter, entries[last]) then [last] else []);
      assert forall k :: 0 <= k < |pos0| ==> pos0[k] < last;
    }
  }

  /** A position is selected exactly when the filter selects the entry there. */
  lemma {:induction false} PositionsComplete(entries: seq<Prefix>, filter: RegionFilter)
    ensures forall i :: 0 <= i < |entries| ==> (Selects(filter, entries[i]) <==> i in SelectedPositions(entries, filter))
    decreases |entries|
  {
    if entries != [] {
      var last := |entries| - 1;
      var front := entries[..last];
      PositionsComplete(front, filter);
      PositionsIncrease(front, filter);
      var pos0 := SelectedPositions(front, filter);
      assert |front| == last;
      assert SelectedPositions(entries, filter) == pos0 + (if Selects(filter, entries[last]) then [last] else []);
      assert last !in pos0;
      forall i | 0 <= i < last ensures Selects(filter, entries[i]) <==> i in SelectedPositions(entries, filter) {
        assert entries[i] == front[i];
      }
    }
  }

  /** Output element k is the `ip_prefix` of the entry at the k-th selected position. */
  lemma {:induction false} OutputFollowsPositions(entries: seq<Prefix>, filter: RegionFilter)
    ensures var kept, pos := FilterPrefixes(entries, filter), SelectedPositions(entries, filter);
      |kept| == |pos| && forall k :: 0 <= k < |pos| ==> pos[k] < |entries| && kept[k] == entries[pos[k]].ipPrefix
    decreases |entries|
  {
    if entries != [] {
      var last := |entries| - 1;
      var front := entries[..last];
      var piece := if Selects(filter, entries[last]) then [entries[last].ipPrefix] else [];
      OutputFollowsPositions(front, filter);
      assert entries == front + [entries[last]];
      FilterAppend(front, [entries[last]], filter);
      assert FilterPrefixes([entries[last]], filter) == piece by {
        assert [entries[last]][1..] == [];
      }
      var kept0, pos0 := FilterPrefixes(front, filter), SelectedPositions(front, filter);
      forall k | 0 <= k < |pos0|
        ensures FilterPrefixes(entries, filter)[k] == entries[SelectedPositions(entries, filter)[k]].ipPrefix
      {
        assert entries[pos0[k]] == front[pos0[k]];
      }
    }
  }

  /** The output is the `ip_prefix` of the selected entries, one per selected
      entry, in input order: output position k holds the entry at the k-th
      selected position, positions strictly increase, and an entry's position
      is among them exactly when the filter selects it. Duplicates are kept,
      since every selected position contributes its own element. */
  lemma FilterIsSelection(entries: seq<Prefix>, filter: RegionFilter)
    ensures var kept, pos := FilterPrefixes(entries, filter), SelectedPositions(entries, filter);
      && |kept| == |pos|
      && (forall k :: 0 <= k < |pos| ==> pos[k] < |entries| && kept[k] == entries[pos[k]].ipPrefix)
      && (forall j, k :: 0 <= j < k < |pos| ==> pos[j] < pos[k])
      && (forall i :: 0 <= i < |entries| ==> (Selects(filter, entries[i]) <==> i in pos))
  {
    OutputFollowsPositions(entries, filter);
    PositionsIncrease(entries, filter);
    PositionsComplete(entries, filter);
  }

  /** A prefix is in the output iff some selected entry carries it. */
  lemma FilterMembership(entries: seq<Prefix>, filter: RegionFilter, ipPrefix: string)
    ensures ipPrefix in FilterPrefixes(entries, filter)
        <==> exists i :: 0 <= i < |entries| && Selects(filter, entries[i]) && entries[i].ipPrefix == ipPrefix
  {
    FilterIsSelection(entries, filter);
    var kept, pos := FilterPrefixes(entries, filter), SelectedPositions(entries, filter);
    if ipPrefix in kept {
      var k :| 0 <= k < |kept| && kept[k] == ipPrefix;
      assert Selects(filter, entries[pos[k]]);
    }
    if exists i :: 0 <= i < |entries| && Selects(filter, entries[i]) && entries[i].ipPrefix == ipPrefix {
      var i :| 0 <= i < |entries| && Selects(filter, entries[i]) && entries[i].ipPrefix == ipPrefix;
      var k :| 0 <= k < |pos| && pos[k] == i;
      assert kept[k] == ipPrefix;
    }
  }

  /** Without a pattern the output is the `ip_prefix` of every entry, in order. */
  lemma {:induction false} NoPatternKeepsEverything(entries: seq<Prefix>)
    ensures var kept := FilterPrefixes(entries, RegionFilter(None));
      |kept| == |entries| && forall i :: 0 <= i < |entries| ==> kept[i] == entries[i].ipPrefix
  {
    if entries != [] {
      NoPatternKeepsEverything(entries[1..]);
      var kept := FilterPrefixes(entries, RegionFilter(None));
      assert kept == [entries[0].ipPrefix] + FilterPrefixes(entries[1..], RegionFilter(None));
      forall i | 0 <= i < |entries| ensures kept[i] == entries[i].ipPrefix {
        if i > 0 {
          assert entries[1..][i - 1] == entries[i];
        }
      }
    }
  }

  /** A pattern and its negation split the entries between them: together
      they keep every entry exactly once. */
  lemma {:induction false} NegationPartitions(entries: seq<Prefix>, pattern: string)
    requires pattern == [] || pattern[0] != Negation
    ensures |FilterPrefixes(entries, RegionFilter(Some(pattern)))|
          + |FilterPrefixes(entries, RegionFilter(Some([Negation] + pattern)))| == |entries|
  {
    if entries != [] {
      NegationPartitions(entries[1..], pattern);
      NegationIsComplement(entries[0].region, pattern);
    }
  }

  /** Pattern `*` keeps what no pattern keeps, and `!*` keeps nothing, as long
      as no region holds a line feed. */
  lemma {:induction false} StarKeepsEverything(entries: seq<Prefix>)
    requires forall i :: 0 <= i < |entries| ==> LineFeed !in entries[i].region
    ensures FilterPrefixes(entries, RegionFilter(Some("*"))) == FilterPrefixes(entries, RegionFilter(None))
    ensures FilterPrefixes(entries, RegionFilter(Some("!*"))) == []
  {
    if entries != [] {
      StarSelectsEveryRegion(entries[0].region);
      assert forall i :: 0 <= i < |entries[1..]| ==> entries[1..][i] == entries[i + 1];
      StarKeepsEverything(entries[1..]);
    }
  }
}
