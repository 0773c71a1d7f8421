/**
Hunk application (`apply_hunks` in edit.rs).  A text is the sequence of its
UTF-8 bytes, one `char` per byte.
*/
module Hunks {
  import opened Results

  datatype Hunk = Hunk(find: string, replace: string)

  datatype HunkError = EmptyHunks | EmptyFind | HunkNotFound | HunkAmbiguous

  /** A UTF-8 continuation byte: never the first byte of a character. */
  predicate IsContinuation(c: char) {
    0x80 <= c as int < 0xC0
  }

  /** What every `&str` satisfies: its first byte starts a character. */
  predicate StartsOnBoundary(s: string) {
    s == "" || !IsContinuation(s[0])
  }

  predicate OccursAt(text: string, find: string, i: nat) {
    i + |find| <= |text| && text[i..i + |find|] == find
  }

  /** `overlapping_match_indices`: the character starts from `i` on where `find` occurs. */
  function MatchesFrom(text: string, find: string, i: nat): (r: seq<nat>)
    requires i <= |text|
    decreases |text| - i
  {
    if i == |text| then []
    else
      (if !IsContinuation(text[i]) && OccursAt(text, find, i) then [i] else [])
      + MatchesFrom(text, find, i + 1)
  }

  function Splice(text: string, i: nat, h: Hunk): (r: string)
    requires OccursAt(text, h.find, i)
    ensures |r| == |text| + |h.replace| - |h.find|
  {
    text[..i] + h.replace + text[i + |h.find|..]
  }

  /** A splice puts the new text where the found one was, and moves nothing else. */
  lemma SpliceExactly(text: string, i: nat, h: Hunk)
    requires OccursAt(text, h.find, i)
    ensures
      var after, k := Splice(text, i, h), |h.replace|;
      && after[..i] == text[..i] && after[i..i + k] == h.replace && after[i + k..] == text[i + |h.find|..]
  {
    var head := text[..i] + h.replace;
    assert Splice(text, i, h) == head + text[i + |h.find|..];
    assert head[..i] == text[..i] && head[i..] == h.replace;
  }

  /** `str::replacen(find, replace, 1)`, searching from `i`. */
  function ReplaceFirst(text: string, h: Hunk, i: nat): (r: string)
    requires i <= |text|
    decreases |text| - i
  {
    if OccursAt(text, h.find, i) then Splice(text, i, h)
    else if i == |text| then text
    else ReplaceFirst(text, h, i + 1)
  }

  function ApplyHunk(text: string, h: Hunk): Result<string, HunkError> {
    if h.find == "" then Err(EmptyFind)
    else
      var matches := MatchesFrom(text, h.find, 0);
      if |matches| == 0 then Err(HunkNotFound)
      else if |matches| == 1 then Ok(ReplaceFirst(text, h, 0))
      else Err(HunkAmbiguous)
  }

  function ApplyEach(text: string, hunks: seq<Hunk>): Result<string, HunkError>
    decreases |hunks|
  {
    if hunks == [] then Ok(text)
    else
      match ApplyHunk(text, hunks[0])
      case Err(e) => Err(e)
      case Ok(next) => ApplyEach(next, hunks[1..])
  }

  function ApplyHunksSpec(text: string, hunks: seq<Hunk>): Result<string, HunkError> {
    if hunks == [] then Err(EmptyHunks) else ApplyEach(text, hunks)
  }

  method ApplyHunks(original: string, hunks: seq<Hunk>) returns (r: Result<string, HunkError>)
    ensures r == ApplyHunksSpec(original, hunks)
  {
    if hunks == [] {
      return Err(EmptyHunks);
    }
    var text := original;
    for k := 0 to |hunks|
      invariant ApplyEach(original, hunks) == ApplyEach(text, hunks[k..])
    {
      var h := hunks[k];
      assert hunks[k..][0] == h && hunks[k..][1..] == hunks[k + 1..];
      if h.find == "" {
        return Err(EmptyFind);
      }
      var matches := MatchesFrom(text, h.find, 0);
      if |matches| == 0 {
        return Err(HunkNotFound);
      } else if |matches| == 1 {
        text := ReplaceFirst(text, h, 0);
      } else {
        return Err(HunkAmbiguous);
      }
    }
    return Ok(text);
  }

  // ---- What success means ----

  ghost predicate ValidHunks(hunks: seq<Hunk>) {
    forall h <- hunks :: StartsOnBoundary(h.find)
  }

  ghost predicate OccursOnlyAt(text: string, find: string, i: nat) {
    OccursAt(text, find, i) && forall j: nat :: OccursAt(text, find, j) ==> j == i
  }

  /** One step: `find` has a single occurrence, overlaps counted, and only it is replaced. */
  ghost predicate UniqueStep(before: string, h: Hunk, after: string) {
    && h.find != ""
    && exists i: nat :: OccursOnlyAt(before, h.find, i) && after == Splice(before, i, h)
  }

  ghost predicate Derivation(texts: seq<string>, hunks: seq<Hunk>) {
    && |texts| == |hunks| + 1
    && forall k :: 0 <= k < |hunks| ==> UniqueStep(texts[k], hunks[k], texts[k + 1])
  }

  function NetLength(hunks: seq<Hunk>): int {
    if hunks == [] then 0
    else |hunks[0].replace| - |hunks[0].find| + NetLength(hunks[1..])
  }

  ghost predicate Increasing(m: seq<nat>) {
    forall a, b :: 0 <= a < b < |m| ==> m[a] < m[b]
  }

  lemma {:induction false} MatchesAreOccurrences(text: string, find: string, i: nat)
    requires i <= |text| && find != "" && StartsOnBoundary(find)
    ensures forall j: nat :: j in MatchesFrom(text, find, i) <==> i <= j && OccursAt(text, find, j)
    decreases |text| - i
  {
    if i < |text| {
      MatchesAreOccurrences(text, find, i + 1);
      assert OccursAt(text, find, i) ==> find[0] == text[i..i + |find|][0] == text[i];
    }
  }

  lemma {:induction false} MatchesIncrease(text: string, find: string, i: nat)
    requires i <= |text| && find != "" && StartsOnBoundary(find)
    ensures Increasing(MatchesFrom(text, find, i))
    decreases |text| - i
  {
    if i < |text| {
      MatchesIncrease(text, find, i + 1);
      MatchesAreOccurrences(text, find, i + 1);
      var rest := MatchesFrom(text, find, i + 1);
      assert forall k :: 0 <= k < |rest| ==> rest[k] in rest;
    }
  }

  lemma {:induction false} ReplaceFirstAt(text: string, h: Hunk, i: nat, k: nat)
    requires i <= k <= |text| && OccursAt(text, h.find, k)
    requires forall j: nat :: i <= j && OccursAt(text, h.find, j) ==> j == k
    ensures ReplaceFirst(text, h, i) == Splice(text, k, h)
    decreases |text| - i
  {
    if i < k {
      ReplaceFirstAt(text, h, i + 1, k);
    }
  }

  /** One hunk succeeds exactly when its find text occurs once, and then replaces just that. */
  lemma HunkStep(text: string, h: Hunk, after: string)
    requires StartsOnBoundary(h.find)
    ensures ApplyHunk(text, h) == Ok(after) <==> UniqueStep(text, h, after)
  {
    if h.find != "" {
      var m := MatchesFrom(text, h.find, 0);
      MatchesAreOccurrences(text, h.find, 0);
      MatchesIncrease(text, h.find, 0);
      if |m| == 1 {
        var i := m[0];
        assert i in m;
        assert OccursOnlyAt(text, h.find, i) by {
          forall j: nat | OccursAt(text, h.find, j) ensures j == i { assert j in m; }
        }
        ReplaceFirstAt(text, h, 0, i);
      } else if |m| >= 2 {
        assert m[0] in m && m[1] in m && m[0] < m[1];
      }
    }
  }

  lemma StepLength(before: string, h: Hunk, after: string)
    requires UniqueStep(before, h, after)
    ensures |after| == |before| + |h.replace| - |h.find|
  {
  }

  lemma {:induction false} EachStep(text: string, hunks: seq<Hunk>, after: string)
    requires ValidHunks(hunks)
    ensures ApplyEach(text, hunks) == Ok(after) <==>
      exists texts :: Derivation(texts, hunks) && texts[0] == text && texts[|hunks|] == after
    ensures ApplyEach(text, hunks) == Ok(after) ==> |after| == |text| + NetLength(hunks)
    decreases |hunks|
  {
    hide ApplyHunk, UniqueStep;
    if hunks == [] {
      if after == text {
        assert Derivation([text], hunks);
      }
    } else {
      if ApplyEach(text, hunks) == Ok(after) {
        var next := ApplyHunk(text, hunks[0]).value;
        HunkStep(text, hunks[0], next);
        StepLength(text, hunks[0], next);
        EachStep(next, hunks[1..], after);
        var rest :| Derivation(rest, hunks[1..]) && rest[0] == next && rest[|hunks| - 1] == after;
        var texts := [text] + rest;
        forall k | 0 <= k < |hunks| ensures UniqueStep(texts[k], hunks[k], texts[k + 1]) {
          if k > 0 { assert hunks[k] == hunks[1..][k - 1]; }
        }
        assert Derivation(texts, hunks) && texts[0] == text && texts[|hunks|] == after;
      }
      if texts :| Derivation(texts, hunks) && texts[0] == text && texts[|hunks|] == after {
        HunkStep(text, hunks[0], texts[1]);
        StepLength(text, hunks[0], texts[1]);
        assert Derivation(texts[1..], hunks[1..]);
        EachStep(texts[1], hunks[1..], after);
      }
    }
  }

  /**
  Hunks apply exactly when there is at least one and each, in turn, has a
  non-empty find text with one occurrence; every step replaces that occurrence
  alone, so lengths add up.
  */
  lemma HunksApplyExactly(text: string, hunks: seq<Hunk>, after: string)
    requires ValidHunks(hunks)
    ensures ApplyHunksSpec(text, hunks) == Ok(after) <==>
      hunks != [] && exists texts :: Derivation(texts, hunks) && texts[0] == text && texts[|hunks|] == after
    ensures ApplyHunksSpec(text, hunks) == Ok(after) ==> |after| == |text| + NetLength(hunks)
  {
    EachStep(text, hunks, after);
  }

  // ---- What failure means ----

  ghost predicate OccursTwice(text: string, find: string) {
    exists i: nat, j: nat :: i < j && OccursAt(text, find, i) && OccursAt(text, find, j)
  }

  /** The reason a hunk does not apply is one of three, told apart by the occurrences. */
  lemma HunkFailure(text: string, h: Hunk)
    requires StartsOnBoundary(h.find)
    ensures ApplyHunk(text, h) == Err(EmptyFind) <==> h.find == ""
    ensures ApplyHunk(text, h) == Err(HunkNotFound) <==>
      h.find != "" && forall i: nat :: !OccursAt(text, h.find, i)
    ensures ApplyHunk(text, h) == Err(HunkAmbiguous) <==> h.find != "" && OccursTwice(text, h.find)
  {
    if h.find != "" {
      var m := MatchesFrom(text, h.find, 0);
      MatchesAreOccurrences(text, h.find, 0);
      MatchesIncrease(text, h.find, 0);
      assert m != [] ==> m[0] in m;
      assert |m| >= 2 ==> m[0] in m && m[1] in m && m[0] < m[1];
      if i: nat, j: nat :| i < j && OccursAt(text, h.find, i) && OccursAt(text, h.find, j) {
        assert i in m && j in m;
      }
    }
  }

  /** The hunks before the `k`-th derive `texts`, and the `k`-th does not apply to the last of them. */
  ghost predicate FailsAt(text: string, hunks: seq<Hunk>, texts: seq<string>, k: nat, e: HunkError) {
    && k < |hunks| && Derivation(texts, hunks[..k]) && texts[0] == text
    && ApplyHunk(texts[k], hunks[k]) == Err(e)
  }

  lemma {:induction false} FailureHasPlace(text: string, hunks: seq<Hunk>, e: HunkError)
    returns (texts: seq<string>, k: nat)
    requires ValidHunks(hunks) && ApplyEach(text, hunks) == Err(e)
    ensures FailsAt(text, hunks, texts, k, e)
    decreases |hunks|
  {
    hide ApplyHunk, UniqueStep;
    if ApplyHunk(text, hunks[0]).Err? {
      texts, k := [text], 0;
    } else {
      var next := ApplyHunk(text, hunks[0]).value;
      HunkStep(text, hunks[0], next);
      var more, m := FailureHasPlace(next, hunks[1..], e);
      FailLater(text, hunks, more, m);
      texts, k := [text] + more, m + 1;
      assert texts[k] == more[m] && hunks[k] == hunks[1..][m];
    }
  }

  lemma {:induction false} PlaceIsFailure(text: string, hunks: seq<Hunk>, texts: seq<string>, k: nat, e: HunkError)
    requires ValidHunks(hunks) && FailsAt(text, hunks, texts, k, e)
    ensures ApplyEach(text, hunks) == Err(e)
    decreases |hunks|
  {
    hide ApplyHunk, UniqueStep;
    if k > 0 {
      FailEarlier(hunks, texts, k);
      HunkStep(text, hunks[0], texts[1]);
      assert texts[1..][k - 1] == texts[k] && hunks[1..][k - 1] == hunks[k];
      PlaceIsFailure(texts[1], hunks[1..], texts[1..], k - 1, e);
    }
  }

  lemma FailLater(text: string, hunks: seq<Hunk>, more: seq<string>, k: nat)
    requires hunks != [] && k < |hunks| - 1 && Derivation(more, hunks[1..][..k]) && UniqueStep(text, hunks[0], more[0])
    ensures Derivation([text] + more, hunks[..k + 1])
  {
    hide UniqueStep;
    var texts := [text] + more;
    forall i | 0 <= i < k + 1 ensures UniqueStep(texts[i], hunks[..k + 1][i], texts[i + 1]) {
      if i > 0 {
        assert texts[i] == more[i - 1] && texts[i + 1] == more[i] && hunks[..k + 1][i] == hunks[1..][..k][i - 1];
      }
    }
  }

  lemma FailEarlier(hunks: seq<Hunk>, texts: seq<string>, k: nat)
    requires 0 < k < |hunks| && Derivation(texts, hunks[..k])
    ensures UniqueStep(texts[0], hunks[0], texts[1]) && Derivation(texts[1..], hunks[1..][..k - 1])
  {
    hide UniqueStep;
    forall i | 0 <= i < k - 1 ensures UniqueStep(texts[1..][i], hunks[1..][..k - 1][i], texts[1..][i + 1]) {
      assert hunks[1..][..k - 1][i] == hunks[..k][i + 1];
    }
    assert hunks[..k][0] == hunks[0];
  }

  /** Hunks fail by the reason of the first one that does not apply, after the ones before it did. */
  lemma HunksFailExactly(text: string, hunks: seq<Hunk>, e: HunkError)
    requires ValidHunks(hunks)
    ensures ApplyHunksSpec(text, hunks) == Err(e) <==>
      if hunks == [] then e == EmptyHunks else exists texts, k :: FailsAt(text, hunks, texts, k, e)
  {
    hide ApplyHunk, FailsAt, ApplyEach;
    if hunks != [] && ApplyEach(text, hunks) == Err(e) {
      var texts, k := FailureHasPlace(text, hunks, e);
    }
    if hunks != [] && exists texts, k :: FailsAt(text, hunks, texts, k, e) {
      var texts, k :| FailsAt(text, hunks, texts, k, e);
      PlaceIsFailure(text, hunks, texts, k, e);
    }
  }
}
