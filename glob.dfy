/** The region glob of the IP-prefix service.

    The service turns a pattern into a regular expression by escaping every
    metacharacter, replacing each escaped `*` by `.*` and anchoring the result
    at both ends. So `*` is the only wildcard, every other character stands for
    itself, and the whole value has to match. As in the regular expression
    `.`, a `*` never crosses a line feed.

    `WildcardMatch` is that matcher written directly over value and pattern;
    `Denotes` is the language of the anchored expression, given independently
    by filling the stars of the pattern; `MatchIffDenotes` says they agree. */
module Glob {

  /** The one wildcard character. */
  const Star: char := '*'

  /** The one character a star does not match. */
  const LineFeed: char := '\n'

  /** Number of stars in `pattern`. */
  function Stars(pattern: string): nat
  {
    if pattern == [] then 0
    else (if pattern[0] == Star then 1 else 0) + Stars(pattern[1..])
  }

  /** True iff the whole of `value` matches `pattern`. The literal characters
      of the pattern are never shorter than the value they match. */
  function WildcardMatch(value: string, pattern: string): (matched: bool)
    ensures matched ==> |value| >= |pattern| - Stars(pattern)
    decreases |pattern|, |value|
  {
    if pattern == [] then
      value == []
    else if pattern[0] == Star then
      WildcardMatch(value, pattern[1..])
      || (value != [] && value[0] != LineFeed && WildcardMatch(value[1..], pattern))
    else
      value != [] && value[0] == pattern[0] && WildcardMatch(value[1..], pattern[1..])
  }

  // ---------------------------------------------------------------------------
  // Reference semantics: the strings the anchored expression denotes
  // ---------------------------------------------------------------------------

  /** `pattern` with its k-th star replaced by `runs[k]`. */
  function Fill(pattern: string, runs: seq<string>): string
    requires |runs| == Stars(pattern)
  {
    if pattern == [] then []
    else if pattern[0] == Star then runs[0] + Fill(pattern[1..], runs[1..])
    else [pattern[0]] + Fill(pattern[1..], runs)
  }

  /** What `.*` may consume: runs without a line feed. */
  ghost predicate LineFree(runs: seq<string>)
  {
    forall k :: 0 <= k < |runs| ==> LineFeed !in runs[k]
  }

  /** `value` is in the language of `^escaped(pattern)$` with `\*` read as `.*`. */
  ghost predicate Denotes(value: string, pattern: string)
  {
    exists runs :: |runs| == Stars(pattern) && LineFree(runs) && Fill(pattern, runs) == value
  }

  /** A match yields the runs the stars consumed. */
  lemma {:induction false} MatchWitness(value: string, pattern: string) returns (runs: seq<string>)
    requires WildcardMatch(value, pattern)
    ensures |runs| == Stars(pattern) && LineFree(runs) && Fill(pattern, runs) == value
    decreases |pattern|, |value|
  {
    if pattern == [] {
      runs := [];
    } else if pattern[0] == Star {
      if WildcardMatch(value, pattern[1..]) {
        var rest := MatchWitness(value, pattern[1..]);
        runs := [[]] + rest;
        assert runs[1..] == rest;
      } else {
        var rest := MatchWitness(value[1..], pattern);
        runs := [[value[0]] + rest[0]] + rest[1..];
        assert runs[1..] == rest[1..];
        assert Fill(pattern, rest) == rest[0] + Fill(pattern[1..], rest[1..]);
        assert value == [value[0]] + value[1..];
        forall k | 0 <= k < |runs| ensures LineFeed !in runs[k] {
          if k > 0 {
            assert runs[k] == rest[k];
          }
        }
      }
    } else {
      runs := MatchWitness(value[1..], pattern[1..]);
      assert value == [value[0]] + value[1..];
    }
  }

  /** Every filling of the stars is matched. */
  lemma {:induction false} FillMatches(pattern: string, runs: seq<string>, value: string)
    requires |runs| == Stars(pattern) && LineFree(runs) && value == Fill(pattern, runs)
    ensures WildcardMatch(value, pattern)
    decreases |pattern|, |value|
  {
    if pattern == [] {
    } else if pattern[0] == Star {
      if runs[0] == [] {
        assert value == Fill(pattern[1..], runs[1..]);
        FillMatches(pattern[1..], runs[1..], value);
      } else {
        var shorter := [runs[0][1..]] + runs[1..];
        assert shorter[1..] == runs[1..];
        assert LineFeed !in runs[0];
        forall k | 0 <= k < |shorter| ensures LineFeed !in shorter[k] {
          if k > 0 {
            assert shorter[k] == runs[k];
          }
        }
        assert value == [runs[0][0]] + Fill(pattern, shorter);
        FillMatches(pattern, shorter, value[1..]);
      }
    } else {
      FillMatches(pattern[1..], runs, value[1..]);
    }
  }

  /** The matcher accepts exactly the strings the anchored expression denotes. */
  lemma MatchIffDenotes(value: string, pattern: string)
    ensures WildcardMatch(value, pattern) <==> Denotes(value, pattern)
  {
    if WildcardMatch(value, pattern) {
      var runs := MatchWitness(value, pattern);
    }
    if Denotes(value, pattern) {
      var runs :| |runs| == Stars(pattern) && LineFree(runs) && Fill(pattern, runs) == value;
      FillMatches(pattern, runs, value);
    }
  }

  // ---------------------------------------------------------------------------
  // What the glob promises
  // ---------------------------------------------------------------------------

  /** Without a star every character is literal and the match is anchored:
      a pattern matches exactly the string it spells. */
  lemma {:induction false} LiteralMatchesOnlyItself(value: string, pattern: string)
    requires Star !in pattern
    ensures WildcardMatch(value, pattern) <==> value == pattern
    decreases |pattern|
  {
    if pattern != [] && value != [] {
      assert Star !in pattern[1..] by {
        forall i | 0 <= i < |pattern[1..]| ensures pattern[1..][i] != Star {
          assert pattern[1..][i] == pattern[i + 1];
        }
      }
      LiteralMatchesOnlyItself(value[1..], pattern[1..]);
      assert value == pattern <==> value[0] == pattern[0] && value[1..] == pattern[1..] by {
        if value[0] == pattern[0] && value[1..] == pattern[1..] {
          assert value == [value[0]] + value[1..];
          assert pattern == [pattern[0]] + pattern[1..];
        }
      }
    }
  }

  /** The empty pattern matches only the empty string. */
  lemma EmptyPatternMatchesOnlyEmpty(value: string)
    ensures WildcardMatch(value, "") <==> value == ""
  {
  }

  /** A lone star matches every value without a line feed, and nothing else. */
  lemma {:induction false} StarMatchesAnyLine(value: string)
    ensures WildcardMatch(value, [Star]) <==> LineFeed !in value
  {
    assert [Star][1..] == [];
    if value != [] {
      StarMatchesAnyLine(value[1..]);
      assert value == [value[0]] + value[1..];
    }
  }

  /** A star-free head of a pattern consumes exactly its own characters. */
  lemma {:induction false} LiteralHead(value: string, head: string, tail: string)
    requires Star !in head
    ensures WildcardMatch(value, head + tail)
        <==> |head| <= |value| && value[..|head|] == head && WildcardMatch(value[|head|..], tail)
    decreases |head|
  {
    if head == [] {
      assert head + tail == tail;
      assert value[..0] == head && value[0..] == value;
    } else {
      var pattern := head + tail;
      assert pattern[0] == head[0] && pattern[1..] == head[1..] + tail;
      assert Star !in head[1..] by {
        forall i | 0 <= i < |head[1..]| ensures head[1..][i] != Star {
          assert head[1..][i] == head[i + 1];
        }
      }
      if value != [] {
        LiteralHead(value[1..], head[1..], tail);
        if |head| <= |value| {
          assert value[1..][|head| - 1..] == value[|head|..];
          assert value[..|head|] == head <==> value[0] == head[0] && value[1..][..|head| - 1] == head[1..] by {
            assert value[..|head|] == [value[0]] + value[1..][..|head| - 1];
            assert head == [head[0]] + head[1..];
          }
        }
      }
    }
  }

  /** `value` ends with `tail`, and what comes before it holds no line feed. */
  predicate EndsAfterRun(value: string, tail: string)
  {
    |tail| <= |value| && value[|value| - |tail|..] == tail && LineFeed !in value[..|value| - |tail|]
  }

  /** `EndsAfterRun` one character at a time, as a star consumes the value. */
  lemma EndsAfterRunStep(value: string, tail: string)
    ensures EndsAfterRun(value, tail)
        <==> value == tail || (value != [] && value[0] != LineFeed && EndsAfterRun(value[1..], tail))
  {
    if value == tail {
      assert value[..0] == [] && value[0..] == value;
    } else if |tail| == |value| {
      assert value[0..] == value;
    } else if |tail| < |value| {
      var n := |value| - |tail|;
      assert value[1..][n - 1..] == value[n..];
      assert value[..n] == [value[0]] + value[1..][..n - 1];
    }
  }

  /** A star followed by a star-free tail: the value ends with the tail and
      what comes before it holds no line feed. */
  lemma {:induction false} StarThenLiteral(value: string, tail: string)
    requires Star !in tail
    ensures WildcardMatch(value, [Star] + tail) <==> EndsAfterRun(value, tail)
    decreases |value|
  {
    var pattern := [Star] + tail;
    assert pattern[0] == Star && pattern[1..] == tail;
    LiteralMatchesOnlyItself(value, tail);
    EndsAfterRunStep(value, tail);
    if value != [] {
      StarThenLiteral(value[1..], tail);
    }
  }

  /** The pattern `a*b` with star-free `a` and `b`: the value starts with `a`,
      ends with `b`, is at least as long as both together, and the part between
      them holds no line feed. */
  lemma StarBetweenLiterals(value: string, head: string, tail: string)
    requires Star !in head && Star !in tail
    ensures WildcardMatch(value, head + [Star] + tail)
        <==> |head| + |tail| <= |value|
             && value[..|head|] == head
             && value[|value| - |tail|..] == tail
             && LineFeed !in value[|head|..|value| - |tail|]
  {
    var starTail := [Star] + tail;
    assert head + [Star] + tail == head + starTail;
    LiteralHead(value, head, starTail);
    if |head| <= |value| {
      StarThenLiteral(value[|head|..], tail);
      EndsAfterRunFrom(value, |head|, tail);
    }
  }

  /** `EndsAfterRun` of the part of `value` after its first `from` characters. */
  lemma EndsAfterRunFrom(value: string, from: nat, tail: string)
    requires from <= |value|
    ensures EndsAfterRun(value[from..], tail)
        <==> from + |tail| <= |value|
             && value[|value| - |tail|..] == tail
             && LineFeed !in value[from..|value| - |tail|]
  {
    var rest := value[from..];
    if |tail| <= |rest| {
      SliceOfSuffix(value, from, |rest| - |tail|);
    }
  }

  /** Slicing the suffix of `s` that starts at `from`. */
  lemma SliceOfSuffix<T>(s: seq<T>, from: nat, k: nat)
    requires from + k <= |s|
    ensures s[from..][k..] == s[from + k..]
    ensures s[from..][..k] == s[from..from + k]
  {
  }
}
