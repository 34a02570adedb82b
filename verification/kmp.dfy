/**
 The string-matching benchmark (`kmp/kmp_baseline_comm/kmp.c`). Despite its
 name, the live `kmp` routine is a naive counter: it slides a window of
 `PATTERN_SIZE` characters over the first `STRING_SIZE` characters of the
 input one position at a time, counts how many window characters equal the
 pattern, and bumps `n_matches[0]` when all of them do. `PATTERN_SIZE` and
 `STRING_SIZE` come from a header that is not part of this model and are
 parameters here; `n_matches[0]` is passed in and returned as an integer.
 */
module Kmp {

  /** The value the HLS entry point stores in `n_matches[0]`. */
  const WorkloadMatches: int := 49236

  /** Number of window start positions: `0 .. |input| - |pattern|` inclusive,
      none when the pattern is longer than the input. */
  function Windows(pattern: seq<char>, input: seq<char>): (w: nat)
    ensures w == 0 <==> |pattern| > |input|
    ensures w > 0 ==> w + |pattern| == |input| + 1
  {
    if |pattern| <= |input| then |input| - |pattern| + 1 else 0
  }

  /** The window of `input` starting at `i` spells out `pattern`. */
  predicate MatchesAt(pattern: seq<char>, input: seq<char>, i: nat)
    requires i + |pattern| <= |input|
  {
    input[i..i + |pattern|] == pattern
  }

  /** Reference definition: the set of start positions of occurrences of
      `pattern` in `input`, overlapping ones included. */
  function Occurrences(pattern: seq<char>, input: seq<char>): (s: set<nat>)
    ensures forall i :: i in s ==> i + |pattern| <= |input| && input[i..i + |pattern|] == pattern
  {
    set i: nat | i < Windows(pattern, input) && MatchesAt(pattern, input, i)
  }

  /** How many of the first `k` characters of the window at `i` agree with the
      pattern: the value of `str_cnt` after `k` steps of the inner loop. */
  function AgreeCount(pattern: seq<char>, input: seq<char>, i: nat, k: nat): (c: nat)
    requires k <= |pattern| && i + |pattern| <= |input|
    ensures c <= k
  {
    if k == 0 then 0
    else AgreeCount(pattern, input, i, k - 1) + (if pattern[k - 1] == input[i + k - 1] then 1 else 0)
  }

  /** `str_cnt` reaches `k` exactly when all of the first `k` characters agree. */
  lemma {:induction false} AgreeCountFull(pattern: seq<char>, input: seq<char>, i: nat, k: nat)
    requires k <= |pattern| && i + |pattern| <= |input|
    ensures AgreeCount(pattern, input, i, k) == k <==>
              forall j :: 0 <= j < k ==> pattern[j] == input[i + j]
  {
    if k > 0 {
      AgreeCountFull(pattern, input, i, k - 1);
    }
  }

  /** A window is counted iff every one of its characters matches the pattern. */
  lemma WindowCountedIffMatch(pattern: seq<char>, input: seq<char>, i: nat)
    requires i + |pattern| <= |input|
    ensures AgreeCount(pattern, input, i, |pattern|) == |pattern| <==> MatchesAt(pattern, input, i)
  {
    AgreeCountFull(pattern, input, i, |pattern|);
    if MatchesAt(pattern, input, i) {
      forall j | 0 <= j < |pattern|
        ensures pattern[j] == input[i + j]
      {
        assert input[i..i + |pattern|][j] == input[i + j];
      }
    }
  }

  /** Number of matching windows among the first `k` start positions. */
  function CountUpTo(pattern: seq<char>, input: seq<char>, k: nat): (c: nat)
    requires k <= Windows(pattern, input)
    ensures c <= k
  {
    if k == 0 then 0
    else CountUpTo(pattern, input, k - 1) + (if MatchesAt(pattern, input, k - 1) then 1 else 0)
  }

  /** Number of (possibly overlapping) occurrences of `pattern` in `input`. */
  function CountOccurrences(pattern: seq<char>, input: seq<char>): (c: nat)
    ensures |pattern| > |input| ==> c == 0
    ensures |pattern| <= |input| ==> c <= |input| - |pattern| + 1
  {
    CountUpTo(pattern, input, Windows(pattern, input))
  }

  lemma {:induction false} CountUpToIsCardinality(pattern: seq<char>, input: seq<char>, k: nat)
    requires k <= Windows(pattern, input)
    ensures CountUpTo(pattern, input, k) ==
              |set i: nat | i < k && MatchesAt(pattern, input, i)|
  {
    var below := set i: nat | i < k && MatchesAt(pattern, input, i);
    if k > 0 {
      CountUpToIsCardinality(pattern, input, k - 1);
      var prev := set i: nat | i < k - 1 && MatchesAt(pattern, input, i);
      if MatchesAt(pattern, input, k - 1) {
        assert below == prev + {k - 1};
      } else {
        assert below == prev;
      }
    } else {
      assert below == {};
    }
  }

  /** The counter agrees with the reference definition: it is the number of
      start positions `i` with `input[i..i + |pattern|] == pattern`. */
  lemma CountIsOccurrences(pattern: seq<char>, input: seq<char>)
    ensures CountOccurrences(pattern, input) == |Occurrences(pattern, input)|
  {
    CountUpToIsCardinality(pattern, input, Windows(pattern, input));
  }

  /** Overlapping occurrences are each counted: "aa" occurs twice in "aaa". */
  lemma OverlappingOccurrencesCounted()
    ensures CountOccurrences("aa", "aaa") == 2
  {
    assert MatchesAt("aa", "aaa", 0) by { assert "aaa"[0..2] == "aa"; }
    assert MatchesAt("aa", "aaa", 1) by { assert "aaa"[1..3] == "aa"; }
  }

  /** The inner loop: compares the window at `i` with the pattern character
      by character, reading `input` only at `i .. i + |pattern| - 1`. */
  method CountWindow(pattern: seq<char>, input: seq<char>, i: nat) returns (strCnt: nat)
    requires i + |pattern| <= |input|
    ensures strCnt == AgreeCount(pattern, input, i, |pattern|)
    ensures strCnt <= |pattern|
    ensures strCnt == |pattern| <==> MatchesAt(pattern, input, i)
  {
    strCnt := 0;
    var j := 0;
    while j < |pattern|
      invariant 0 <= j <= |pattern|
      invariant strCnt == AgreeCount(pattern, input, i, j)
    {
      if pattern[j] == input[i + j] {
        strCnt := strCnt + 1;
      }
      j := j + 1;
    }
    WindowCountedIffMatch(pattern, input, i);
  }

  /** `kmp`: adds to `nMatches` (never resetting it) the number of occurrences
      of the first `patternSize` pattern characters in the first `stringSize`
      input characters. The C routine declares an `int` result but returns
      none; the model returns the updated `n_matches[0]` instead. */
  method Kmp(pattern: seq<char>, input: seq<char>, patternSize: nat, stringSize: nat, nMatches: int)
    returns (nMatches': int)
    requires patternSize <= |pattern| && stringSize <= |input|
    ensures nMatches' == nMatches + |Occurrences(pattern[..patternSize], input[..stringSize])|
    ensures patternSize > stringSize ==> nMatches' == nMatches
    ensures nMatches <= nMatches' <= nMatches + Windows(pattern[..patternSize], input[..stringSize])
  {
    var p, t := pattern[..patternSize], input[..stringSize];
    nMatches' := nMatches;
    var i := 0;
    while i <= stringSize - patternSize
      invariant 0 <= i <= Windows(p, t)
      invariant nMatches' == nMatches + CountUpTo(p, t, i)
    {
      var strCnt := CountWindow(p, t, i);
      if strCnt == patternSize {
        nMatches' := nMatches' + 1;
      }
      i := i + 1;
    }
    CountIsOccurrences(p, t);
  }

  /** The HLS entry point `workload` skips the search: it stores the constant
      49236 in `n_matches[0]`. */
  function Workload(pattern: seq<char>, input: seq<char>, nMatches: int): (r: int)
    ensures r == WorkloadMatches
  {
    WorkloadMatches
  }

  /** `workload` ignores the pattern, the input and the previous count. */
  lemma WorkloadIgnoresInputs(pattern: seq<char>, input: seq<char>, nMatches: int,
                              pattern': seq<char>, input': seq<char>, nMatches': int)
    ensures Workload(pattern, input, nMatches) == Workload(pattern', input', nMatches') == 49236
  {
  }

  /** `workload` does not report the number of occurrences: with no occurrence
      and a zero starting count the search would leave 0. */
  lemma WorkloadIsNotTheSearch()
    ensures CountOccurrences("a", "b") == 0
    ensures Workload("a", "b", 0) != 0 + CountOccurrences("a", "b")
  {
    assert !MatchesAt("a", "b", 0) by { assert "b"[0..1] == "b"; }
  }
}
