# Region filter of the IP-prefix service

The service answers `GET /ip-prefixes`. It fetches the cloud provider's
IP-range document, keeps the `ip_prefix` of every entry whose `region`
satisfies the optional `region` query parameter, and replies with the kept
prefixes joined by line feeds. This project models the part of
`src/main.rs` that makes that choice, and proves what it promises:

- `Glob` (`glob.dfy`) is `wildcard_match`. The source escapes every
  regular-expression metacharacter, turns `\*` into `.*` and anchors the
  expression with `^…$`. The model writes the resulting matcher directly as
  the recursive predicate `WildcardMatch`. It also gives the language of
  the anchored expression independently: `Fill` puts a run of characters in
  place of each star, and `Denotes` says a value is some such filling.
  `MatchIffDenotes` proves that the two agree.
- `Prefixes` (`prefixes.dfy`) holds the records (`Prefix`, `IpRanges`),
  the query parameters (`RegionFilter`), `MatchesRegion` with its `!`
  negation, and the filter/map/collect chain as `FilterPrefixes`. The
  lemmas say which entries are kept, in which order, and how many.
  `SelectedPositions` lists the positions of the selected entries; it is
  the reference the output is compared with.
- `Response` (`response.dfy`) models the `join("\n")` of the reply and the
  success/failure shape of the handler. The helper `SplitLines` cuts text
  at line feeds; the lemmas prove that it undoes the join, and the reverse.
- `Scenarios` (`scenarios.dfy`) works through requests against a
  two-entry document: no pattern, an exact region, `us-*`, `!us-east-1`,
  `eu-*` (empty body) and the literal `.` of `u.-*`.
- `Wrappers` (`wrappers.dfy`) holds `Option` and `Result`.

Everything is pure, as in the source: the filter is an iterator chain and
the matcher is a single query, so the model uses functions over `seq` and
`string` and lemmas. Nothing in it is updated in place.

A glob is usually read as `*` matching "any run of characters"; the model
follows the code instead. In the code, `*` becomes the regular expression `.*`, and `.`
does not match a line feed in the regex crate's default mode. The anchor
`$` matches only at the very end of the text in that mode. So a `*` in
`WildcardMatch` consumes only characters other than `'\n'`. Lemmas that
rely on "`*` matches everything" assume that regions hold no line feed.

## Model

| member | source | states |
|---|---|---|
| `Glob.WildcardMatch` | src/main.rs:111-115 | A match needs at least as many value characters as the pattern has non-star characters. |
| `Glob.MatchIffDenotes` | src/main.rs:112-114 | The matcher accepts a value exactly when the value is the pattern with every `*` replaced by a run without line feeds. This is the language of `^escape(p)$` with `\*` read as `.*`. |
| `Glob.LiteralMatchesOnlyItself` | src/main.rs:112-113 | A pattern without `*` matches exactly the identical string. Every other character, `.`, `+` and `(` included, is literal, and the match is anchored at both ends. |
| `Glob.EmptyPatternMatchesOnlyEmpty` | src/main.rs:112-114 | The empty pattern (`^$`) matches only the empty string. |
| `Glob.StarMatchesAnyLine` | src/main.rs:112-114 | The pattern `*` matches a value iff the value holds no line feed. |
| `Glob.LiteralHead` | src/main.rs:112-113 | A star-free start of a pattern matches exactly the same characters at the start of the value, and the rest of the pattern matches the rest of the value. |
| `Glob.StarThenLiteral` | src/main.rs:112-113 | `*b` with star-free `b` matches iff the value ends with `b` and the part before holds no line feed. |
| `Glob.StarBetweenLiterals` | src/main.rs:112-113 | `a*b` with star-free `a` and `b` matches iff the value starts with `a` and ends with `b`, the value is at least as long as `a` and `b` together, and the middle holds no line feed. |
| `Prefixes.FilterPrefixes` | src/main.rs:85-93 | The output is never longer than the input. |
| `Prefixes.FetchAndFilterPrefixes` | src/main.rs:71-95 | The result is a failure exactly when fetching or decoding failed. On success it holds at most one prefix per upstream entry. |
| `Prefixes.PlainPatternIsGlob` | src/main.rs:104-106 | A pattern that does not start with `!` selects exactly what the glob matches. |
| `Prefixes.NegationIsComplement` | src/main.rs:100-103 | The pattern `!p` selects a region exactly when the glob `p` does not match it. |
| `Prefixes.StarSelectsEveryRegion` | src/main.rs:99-114 | `*` selects every region without a line feed, and `!*` selects none. |
| `Prefixes.FilterAppend` | src/main.rs:85-93 | Filtering a concatenation gives the concatenation of the filtered parts, so the filter keeps the input order. |
| `Prefixes.PositionsIncrease` | src/main.rs:85-93 | Every selected position lies inside the input, and the positions strictly increase. |
| `Prefixes.PositionsComplete` | src/main.rs:88-91 | Position i is selected iff there is no pattern or `matches_region` holds for entry i. |
| `Prefixes.OutputFollowsPositions` | src/main.rs:85-93 | The output has one element per selected position. Element k is the `ip_prefix` of the entry at the k-th selected position. |
| `Prefixes.FilterIsSelection` | src/main.rs:85-93 | Output element k is the `ip_prefix` of the entry at the k-th selected position. Positions strictly increase. An entry's position is selected iff there is no pattern or `matches_region` holds for the entry. So the output is an order-preserving subsequence and duplicates are kept. |
| `Prefixes.FilterMembership` | src/main.rs:88-92 | A string is in the output iff some selected entry has it as its `ip_prefix`. |
| `Prefixes.NoPatternKeepsEverything` | src/main.rs:88-93 | Without a pattern the output has the input's length, and position i holds the `ip_prefix` of entry i. |
| `Prefixes.NegationPartitions` | src/main.rs:88-106 | For a pattern `p` that does not start with `!`, the outputs of `p` and `!p` have lengths that add up to the input's length. |
| `Prefixes.StarKeepsEverything` | src/main.rs:85-114 | If no region holds a line feed, `*` gives exactly the no-pattern output and `!*` gives the empty output. |
| `Response.Reply` | src/main.rs:42-56 | The reply is a failure exactly when fetching or decoding failed. |
| `Response.SplitJoin` | src/main.rs:47 | Splitting the body at line feeds gives back the joined lines, if there is at least one line and no line holds a line feed. |
| `Response.JoinSplit` | src/main.rs:47 | Joining the pieces of any text with line feeds gives back the text. |
| `Response.SeparatorCount` | src/main.rs:47 | The body for n lines without line feeds holds exactly n - 1 line feeds. |
| `Response.NoTrailingSeparator` | src/main.rs:47 | For non-empty lines without line feeds, the body ends with the last character of the last line, so it has no trailing line feed. |
| `Response.ReplyEmptyIffNoMatch` | src/main.rs:42-47 | Zero matches give the empty body, whatever the prefixes. Conversely, if every prefix is non-empty, only zero matches give the empty body. |
| `Response.ReplySplitsIntoKeptPrefixes` | src/main.rs:42-47 | If at least one prefix is kept and none holds a line feed, the body of a successful reply splits back into exactly the kept prefixes. |
| `Scenarios.NoPatternScenario` | src/main.rs:85-93 | With no pattern, both entries of the worked document are kept, in order. |
| `Scenarios.ExactRegionScenario` | src/main.rs:85-115 | `us-east-1` keeps only the `us-east-1` entry. |
| `Scenarios.StarSuffixScenario` | src/main.rs:85-115 | `us-*` keeps both entries. |
| `Scenarios.NegatedRegionScenario` | src/main.rs:85-115 | `!us-east-1` keeps only the `us-west-2` entry. |
| `Scenarios.NoMatchScenario` | src/main.rs:42-115 | `eu-*` keeps nothing, and the reply body is empty. |
| `Scenarios.LiteralDotScenario` | src/main.rs:99-115 | `u.-*` does not match `us-east-1`, because `.` is literal. |
| `Scenarios.FailedFetchHasNoBody` | src/main.rs:42-56 | A failed fetch or decode gives the failure, whatever the pattern. |

## Left out

- `main`: the warp route, the listening address and port 3030, the
  `Content-Type` header and the translation of a rejection into an HTTP
  status. These are server plumbing.
- Parsing the `region` query parameter into `RegionFilter`. This is done
  by warp and serde, so the model starts from the decoded `Option`.
- The network fetch (`reqwest::get`) and the JSON decoding of
  `IpRanges`/`Prefix`. Both are foreign I/O and library decoding. Their
  combined outcome is the parameter `upstream: Result<IpRanges,
  FetchError>`. Both failure causes become the one opaque `FetchError`,
  as they do in the source.
- All `println!`/`eprintln!` logging. It has no effect on the result.
- The regex crate itself. `regex::escape`, the `.replace` and
  `Regex::new` are replaced by the directly defined `WildcardMatch`. The
  model does not capture the panic that `Regex::new(...).unwrap()` would
  raise if a very long pattern exceeded the crate's compiled-size limit.
  On an escaped pattern that is the only way the `unwrap` can fail.
- Concurrency between requests. Requests share no state, and the filter
  never suspends.
