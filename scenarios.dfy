/** Worked requests against a two-entry document, one per pattern form. */
module Scenarios {

  import opened Wrappers
  import opened Glob
  import opened Prefixes
  import opened Response

  function East(): Prefix { Prefix("10.0.0.0/8", "us-east-1", "EC2", "us-east-1") }

  function West(): Prefix { Prefix("10.1.0.0/16", "us-west-2", "EC2", "us-west-2") }

  function Entries(): seq<Prefix> { [East(), West()] }

  /** Filtering two entries decides each on its own. */
  lemma FilterPair(first: Prefix, second: Prefix, filter: RegionFilter)
    ensures FilterPrefixes([first, second], filter)
         == (if Selects(filter, first) then [first.ipPrefix] else [])
          + (if Selects(filter, second) then [second.ipPrefix] else [])
  {
    assert [first, second][1..] == [second] && [second][1..] == [];
  }

  /** Without a pattern both prefixes are kept, in order. */
  lemma NoPatternScenario()
    ensures FilterPrefixes(Entries(), RegionFilter(None)) == ["10.0.0.0/8", "10.1.0.0/16"]
  {
    assert Entries()[1..] == [West()] && Entries()[1..][1..] == [];
  }

  /** An exact region keeps its own entry only. */
  lemma ExactRegionScenario()
    ensures FilterPrefixes(Entries(), RegionFilter(Some("us-east-1"))) == ["10.0.0.0/8"]
  {
    assert Entries()[1..] == [West()] && Entries()[1..][1..] == [];
    LiteralMatchesOnlyItself("us-east-1", "us-east-1");
    LiteralMatchesOnlyItself("us-west-2", "us-east-1");
  }

  /** `us-*` keeps both entries. */
  lemma StarSuffixScenario()
    ensures FilterPrefixes(Entries(), RegionFilter(Some("us-*"))) == ["10.0.0.0/8", "10.1.0.0/16"]
  {
    var filter := RegionFilter(Some("us-*"));
    EastMatchesUsStar();
    WestMatchesUsStar();
    assert Selects(filter, East()) && Selects(filter, West());
    FilterPair(East(), West(), filter);
  }

  /** `us-*` matches a region that starts with `us-` and holds no line feed. */
  lemma UsStarMatches(region: string)
    requires |region| >= 3 && region[..3] == "us-" && LineFeed !in region
    ensures MatchesRegion(region, "us-*")
  {
    assert "us-*" == "us-" + [Star] + "";
    StarBetweenLiterals(region, "us-", "");
    assert region[3..|region|] == region[3..];
    assert forall c :: c in region[3..] ==> c in region;
  }

  /** `!us-east-1` keeps the other entry. */
  lemma NegatedRegionScenario()
    ensures FilterPrefixes(Entries(), RegionFilter(Some("!us-east-1"))) == ["10.1.0.0/16"]
  {
    NegatedEast();
    assert Entries()[1..] == [West()] && Entries()[1..][1..] == [];
  }

  /** `us-*` selects the region of the first entry. */
  lemma EastMatchesUsStar()
    ensures MatchesRegion(East().region, "us-*")
  {
    UsStarMatches(East().region);
  }

  /** `us-*` selects the region of the second entry. */
  lemma WestMatchesUsStar()
    ensures MatchesRegion(West().region, "us-*")
  {
    UsStarMatches(West().region);
  }

  /** `!us-east-1` rejects `us-east-1` and selects `us-west-2`. */
  lemma NegatedEast()
    ensures !MatchesRegion("us-east-1", "!us-east-1") && MatchesRegion("us-west-2", "!us-east-1")
  {
    assert "!us-east-1" == [Negation] + "us-east-1";
    LiteralMatchesOnlyItself("us-east-1", "us-east-1");
    LiteralMatchesOnlyItself("us-west-2", "us-east-1");
    NegationIsComplement("us-east-1", "us-east-1");
    NegationIsComplement("us-west-2", "us-east-1");
  }

  /** `eu-*` keeps nothing, and the reply body is empty. */
  lemma NoMatchScenario()
    ensures Reply(Success(IpRanges("1", "2024-01-01-00-00-00", Entries())), RegionFilter(Some("eu-*"))) == Success([])
  {
    assert Entries()[1..] == [West()] && Entries()[1..][1..] == [];
    assert "eu-*" == "eu-" + [Star] + "";
    StarBetweenLiterals("us-east-1", "eu-", "");
    StarBetweenLiterals("us-west-2", "eu-", "");
  }

  /** The `.` of `u.-*` is literal, so it does not match `us-east-1`. */
  lemma LiteralDotScenario()
    ensures !MatchesRegion("us-east-1", "u.-*")
  {
    assert "u.-*" == "u.-" + [Star] + "";
    StarBetweenLiterals("us-east-1", "u.-", "");
  }

  /** A failed fetch or decode yields the failure, whatever the pattern. */
  lemma FailedFetchHasNoBody(filter: RegionFilter)
    ensures Reply(Failure(FetchError), filter) == Failure(FetchError)
  {
  }
}
