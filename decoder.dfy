/**
 * `WebOCR.decodeOutput`: the CTC-style beam search that turns the network's
 * output tensor into text.
 *
 * The output tensor has dims `[T, 1, C]` and is read row by row: the row of
 * timestep `t` is `data.slice(t * C, (t + 1) * C)`. The script ranks the
 * classes of a row by probability and adds `Math.log(prob + 1e-12)` to a
 * path's score. That logarithm is strictly increasing in `prob`, so ranking
 * by probability and ranking by step score agree; the model therefore takes
 * the step scores themselves as its input (integers) and never computes a
 * logarithm.
 */
module Decoder {
  import opened Charset
  import opened StableSort

  /** One beam entry: decoded text, cumulative score, and the class chosen at the last step. */
  datatype Path = Path(text: string, score: int, prev: int)

  /** One class of a row: its step score (standing for its probability) and its index. */
  datatype Candidate = Candidate(score: int, index: nat)

  function ScoreOf(p: Path): int { p.score }

  function CandidateScore(c: Candidate): int { c.score }

  function CandidateIndex(c: Candidate): int { c.index }

  function Min(a: nat, b: nat): nat { if a <= b then a else b }

  /** The beam before the first timestep: empty text, score 0, no previous class. */
  const Start: Path := Path("", 0, -1)

  /** `TypedArray.prototype.slice(lo, hi)` for non-negative bounds: both are clamped to the length. */
  function Slice(data: seq<int>, lo: nat, hi: nat): (r: seq<int>)
    ensures lo <= hi <= |data| ==> r == data[lo..hi]
    ensures |r| <= |data|
  {
    var a := Min(lo, |data|);
    var b := Min(hi, |data|);
    if a <= b then data[a..b] else []
  }

  /** Where the row of timestep `t` starts in the row-major data of a `[T, 1, C]` tensor: `t * C`. */
  function Offset(t: nat, C: nat): (r: nat) {
    if t == 0 then 0 else Offset(t - 1, C) + C
  }

  lemma {:induction false} OffsetIsProduct(t: nat, C: nat)
    ensures Offset(t, C) == t * C
  {
    if t > 0 {
      OffsetIsProduct(t - 1, C);
    }
  }

  /** The step scores of timestep `t`: `outputData.slice(t * numClasses, (t + 1) * numClasses)`. */
  function Row(data: seq<int>, C: nat, t: nat): seq<int> {
    Slice(data, Offset(t, C), Offset(t + 1, C))
  }

  /** `Array.from(probs).map((p, i) => ({prob: p, index: i}))`. */
  function Indexed(row: seq<int>): (r: seq<Candidate>)
    ensures |r| == |row|
  {
    if row == [] then [] else Indexed(row[..|row| - 1]) + [Candidate(row[|row| - 1], |row| - 1)]
  }

  /** Candidate `i` of a row is class `i` with its own score. */
  lemma {:induction false} IndexedAt(row: seq<int>)
    ensures forall i :: 0 <= i < |row| ==> Indexed(row)[i] == Candidate(row[i], i)
  {
    if row != [] {
      IndexedAt(row[..|row| - 1]);
    }
  }

  /** The classes a path is extended with: the first `k` of the stable descending sort of the row. */
  function Candidates(row: seq<int>, k: nat): seq<Candidate> {
    Take(SortDesc(Indexed(row), CandidateScore), k)
  }

  /**
   * The emission rule: a glyph is appended only for a class that is not the
   * blank and not the class the path chose at the previous step; the new
   * `prev` is the chosen class even when it is the blank.
   */
  function Extend(p: Path, c: Candidate): Path {
    var text := if c.index != Blank && c.index != p.prev then p.text + Glyph(c.index) else p.text;
    Path(text, p.score + c.score, c.index)
  }

  /** The extensions of one path, in candidate order. */
  function ExtendAll(p: Path, cs: seq<Candidate>): (r: seq<Path>)
    ensures |r| == |cs|
    ensures forall j :: 0 <= j < |cs| ==> r[j] == Extend(p, cs[j])
  {
    if cs == [] then [] else ExtendAll(p, cs[..|cs| - 1]) + [Extend(p, cs[|cs| - 1])]
  }

  /** `nextPaths`: every live path extended by each of its candidates, path by path. */
  function Expand(paths: seq<Path>, row: seq<int>, k: nat): seq<Path> {
    if paths == [] then []
    else Expand(paths[..|paths| - 1], row, k) + ExtendAll(paths[|paths| - 1], Candidates(row, k))
  }

  /** Pruning: the first `k` of the stable descending sort of the expansions by cumulative score. */
  function Prune(next: seq<Path>, k: nat): seq<Path> {
    Take(SortDesc(next, ScoreOf), k)
  }

  /** The beam after `t` timesteps. */
  function Beam(data: seq<int>, C: nat, k: nat, t: nat): seq<Path> {
    if t == 0 then [Start]
    else Prune(Expand(Beam(data, C, k, t - 1), Row(data, C, t - 1), k), k)
  }

  /** The decoded text: that of the first path of the final beam, or the empty string. */
  function Decode(data: seq<int>, T: nat, C: nat, k: nat): string {
    var paths := Beam(data, C, k, T);
    if |paths| > 0 then paths[0].text else ""
  }

  lemma ExtendAllPrefix(p: Path, cs: seq<Candidate>, j: nat)
    requires j <= |cs|
    ensures j == |cs| ==> ExtendAll(p, cs[..j]) == ExtendAll(p, cs)
    ensures j < |cs| ==> ExtendAll(p, cs[..j + 1]) == ExtendAll(p, cs[..j]) + [Extend(p, cs[j])]
  {
    if j < |cs| {
      assert cs[..j + 1][..j] == cs[..j];
    } else {
      assert cs[..j] == cs;
    }
  }

  lemma ExpandPrefix(paths: seq<Path>, row: seq<int>, k: nat, i: nat)
    requires i <= |paths|
    ensures i == |paths| ==> Expand(paths[..i], row, k) == Expand(paths, row, k)
    ensures i < |paths| ==>
      Expand(paths[..i + 1], row, k) == Expand(paths[..i], row, k) + ExtendAll(paths[i], Candidates(row, k))
  {
    if i < |paths| {
      assert paths[..i + 1][..i] == paths[..i];
    } else {
      assert paths[..i] == paths;
    }
  }

  lemma PushExtension(done: seq<Path>, p: Path, cs: seq<Candidate>, j: nat, acc: seq<Path>)
    requires j < |cs| && acc == done + ExtendAll(p, cs[..j])
    ensures acc + [Extend(p, cs[j])] == done + ExtendAll(p, cs[..j + 1])
  {
    ExtendAllPrefix(p, cs, j);
  }

  /**
   * The inner loop of one timestep: `path` extended by each of its `sorted`
   * candidates in turn, pushed onto `nextPaths`, the emitted text following
   * the emission rule.
   */
  method PushExtensions(nextPaths: seq<Path>, path: Path, sorted: seq<Candidate>) returns (r: seq<Path>)
    ensures r == nextPaths + ExtendAll(path, sorted)
  {
    r := nextPaths;
    for j := 0 to |sorted|
      invariant r == nextPaths + ExtendAll(path, sorted[..j])
    {
      var index := sorted[j].index;
      var newText := path.text;
      if index != Blank && index != path.prev {
        newText := newText + Glyph(index);
      }
      assert Path(newText, path.score + sorted[j].score, index) == Extend(path, sorted[j]);
      PushExtension(nextPaths, path, sorted, j, r);
      r := r + [Path(newText, path.score + sorted[j].score, index)];
    }
    ExtendAllPrefix(path, sorted, |sorted|);
  }

  /**
   * One timestep of `decodeOutput`, the loop over the live paths: each path
   * is extended by the first `beamWidth` classes of the timestep's row
   * `data.slice(lo, hi)`.
   */
  method ExpandPaths(data: seq<int>, lo: nat, hi: nat, paths: seq<Path>, beamWidth: nat)
    returns (nextPaths: seq<Path>)
    ensures nextPaths == Expand(paths, Slice(data, lo, hi), beamWidth)
  {
    nextPaths := [];
    for i := 0 to |paths|
      invariant nextPaths == Expand(paths[..i], Slice(data, lo, hi), beamWidth)
    {
      var probs := Slice(data, lo, hi);
      var sorted := Candidates(probs, beamWidth);
      nextPaths := PushExtensions(nextPaths, paths[i], sorted);
      ExpandPrefix(paths, probs, beamWidth, i);
    }
    ExpandPrefix(paths, Slice(data, lo, hi), beamWidth, |paths|);
  }

  /**
   * `decodeOutput(outputTensor, beamWidth)`: the beam starts as the one
   * empty path; each timestep expands it and keeps the first `beamWidth`
   * expansions of the stable descending sort by score; the text of the first
   * surviving path is returned, or `''` when none survives.
   */
  method DecodeOutput(data: seq<int>, T: nat, C: nat, beamWidth: nat) returns (text: string)
    ensures text == Decode(data, T, C, beamWidth)
  {
    var paths := [Start];
    for t := 0 to T
      invariant paths == Beam(data, C, beamWidth, t)
    {
      var nextPaths := ExpandPaths(data, Offset(t, C), Offset(t + 1, C), paths, beamWidth);
      paths := Take(SortDesc(nextPaths, ScoreOf), beamWidth);
    }
    text := if |paths| > 0 then paths[0].text else "";
  }
}
