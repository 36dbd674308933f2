/**
 * What the beam search of `decodeOutput` guarantees: the beam bound, the
 * emission (collapse) rule, the meaning of a path's text and score, the
 * stable top-k choice of candidates, the choice of the returned path, and
 * greedy decoding at every beam width of at least 1.
 */
module DecodeLaws {
  import opened Charset
  import opened StableSort
  import opened Decoder

  /* ---------------------------------------------------------------------- */
  /* The CTC collapse, defined independently of the decoder                  */
  /* ---------------------------------------------------------------------- */

  /** Merges every run of equal consecutive classes into one. */
  function Dedup(cs: seq<nat>): (r: seq<nat>)
    ensures |r| <= |cs|
    ensures cs != [] ==> r != [] && r[|r| - 1] == cs[|cs| - 1]
  {
    if |cs| <= 1 then cs
    else if cs[|cs| - 1] == cs[|cs| - 2] then Dedup(cs[..|cs| - 1])
    else Dedup(cs[..|cs| - 1]) + [cs[|cs| - 1]]
  }

  /** Drops every blank. */
  function RemoveBlanks(cs: seq<nat>): (r: seq<nat>)
    ensures |r| <= |cs|
  {
    if cs == [] then []
    else RemoveBlanks(cs[..|cs| - 1]) + (if cs[|cs| - 1] == Blank then [] else [cs[|cs| - 1]])
  }

  /** The collapse of Connectionist Temporal Classification: merge repeats, then drop blanks. */
  function Collapse(cs: seq<nat>): seq<nat> {
    RemoveBlanks(Dedup(cs))
  }

  /** The text of a sequence of classes: their glyphs, one after the other. */
  function Render(ix: seq<nat>): (s: string)
    ensures |s| <= |ix|
  {
    if ix == [] then "" else Render(ix[..|ix| - 1]) + Glyph(ix[|ix| - 1])
  }

  lemma RemoveBlanksSnoc(cs: seq<nat>, c: nat)
    ensures RemoveBlanks(cs + [c]) == RemoveBlanks(cs) + (if c == Blank then [] else [c])
  {
    assert (cs + [c])[..|cs|] == cs;
  }

  lemma RenderSnoc(ix: seq<nat>, c: nat)
    ensures Render(ix + [c]) == Render(ix) + Glyph(c)
  {
    assert (ix + [c])[..|ix|] == ix;
  }

  /** A repeated class is merged into the one before it. */
  lemma RepeatsMerge(cs: seq<nat>, x: nat)
    ensures Collapse(cs + [x, x]) == Collapse(cs + [x])
  {
    assert (cs + [x, x])[..|cs| + 1] == cs + [x];
  }

  /** A blank between two equal classes keeps both. */
  lemma {:induction false} BlankSeparates(cs: seq<nat>, x: nat)
    requires x != Blank
    ensures Collapse(cs + [x, Blank, x]) == Collapse(cs + [x]) + [x]
  {
    var a := cs + [x];
    var b := a + [Blank];
    assert cs + [x, Blank, x] == b + [x];
    assert b[..|a|] == a;
    assert Dedup(b) == Dedup(a) + [Blank];
    assert Dedup(b + [x]) == Dedup(b) + [x];
    RemoveBlanksSnoc(Dedup(a), Blank);
    RemoveBlanksSnoc(Dedup(a) + [Blank], x);
  }

  /** `[k]` collapses to itself, and so does `[k, k, k]`. */
  lemma RepeatExample(k: nat)
    requires k != Blank
    ensures Collapse([k]) == [k]
    ensures Collapse([k, k, k]) == [k]
  {
    SingleCollapse(k);
    PairCollapse(k);
    RepeatsMerge([k], k);
    Appended(k, k, k);
  }

  /** Sequence displays built by appending. */
  lemma Appended(a: nat, b: nat, c: nat)
    ensures [a] + [b, c] == [a, b, c] && [a] + [b] == [a, b]
    ensures [] + [a, b, c] == [a, b, c] && [] + [a, b] == [a, b] && [] + [a] == [a]
  {
  }

  lemma SingleCollapse(k: nat)
    requires k != Blank
    ensures Collapse([k]) == [k]
  {
    assert Dedup([k]) == [k];
    RemoveBlanksSnoc([], k);
    Appended(k, k, k);
  }

  lemma PairCollapse(k: nat)
    ensures Collapse([k, k]) == Collapse([k])
  {
    RepeatsMerge([], k);
    Appended(k, k, k);
  }

  /** `[k, 0, k]` keeps two copies of `k`. */
  lemma BlankExample(k: nat)
    requires k != Blank
    ensures Collapse([k, Blank, k]) == [k, k]
  {
    RepeatExample(k);
    BlankSeparates([], k);
    Appended(k, Blank, k);
    Appended(k, k, k);
  }

  /** Classes 5461, 5461, 1204 collapse to 5461, 1204. */
  lemma RunExample()
    ensures Collapse([5461, 5461, 1204]) == [5461, 1204]
  {
    var cs: seq<nat> := [5461, 5461, 1204];
    RepeatExample(5461);
    RepeatsMerge([], 5461);
    assert [] + [5461, 5461] == cs[..2];
    assert [] + [5461] == [5461];
    CollapseLast(cs);
  }

  /** ...and read "AB". */
  lemma GlyphExample()
    ensures Render([5461, 1204]) == "AB"
  {
    RenderSnoc([5461], 1204);
    RenderSnoc([], 5461);
    assert [] + [5461] == [5461];
    assert Glyph(5461) == "A" && Glyph(1204) == "B";
  }

  /* ---------------------------------------------------------------------- */
  /* The emission rule and the meaning of a path                             */
  /* ---------------------------------------------------------------------- */

  /**
   * One extension appends at most one glyph: exactly when the class is not the
   * blank, differs from the previous class and has a glyph. The new `prev` is
   * the class, even the blank, and the score grows by the class's step score.
   */
  lemma EmissionRule(p: Path, c: Candidate)
    ensures Extend(p, c).prev == c.index
    ensures Extend(p, c).score == p.score + c.score
    ensures Extend(p, c).text == p.text || Extend(p, c).text == p.text + Glyph(c.index)
    ensures Extend(p, c).text != p.text <==> c.index != Blank && c.index != p.prev && Lookup(c.index).Some?
  {
  }

  /** The path obtained by extending the start path with the candidates `cs`, one per timestep. */
  function Follow(cs: seq<Candidate>): Path {
    if cs == [] then Start else Extend(Follow(cs[..|cs| - 1]), cs[|cs| - 1])
  }

  /** The classes of a sequence of candidates. */
  function Classes(cs: seq<Candidate>): (r: seq<nat>)
    ensures |r| == |cs|
    ensures forall t :: 0 <= t < |cs| ==> r[t] == cs[t].index
  {
    if cs == [] then [] else Classes(cs[..|cs| - 1]) + [cs[|cs| - 1].index]
  }

  /** The sum of the step scores of a sequence of candidates. */
  function Sum(cs: seq<Candidate>): int {
    if cs == [] then 0 else Sum(cs[..|cs| - 1]) + cs[|cs| - 1].score
  }

  /**
   * `cs` reads one class per timestep from the output data: candidate `t` is
   * a class of row `t` with that class's own step score.
   */
  ghost predicate Reads(data: seq<int>, C: nat, cs: seq<Candidate>) {
    cs == [] ||
      var t := |cs| - 1;
      && Reads(data, C, cs[..t])
      && cs[t].index < |Row(data, C, t)| && cs[t].score == Row(data, C, t)[cs[t].index]
  }

  /**
   * What the last class does to the collapse: nothing after the same class,
   * otherwise it adds itself unless it is the blank.
   */
  lemma CollapseLast(cs: seq<nat>)
    requires cs != []
    ensures var n := |cs| - 1;
      Collapse(cs) ==
        if n > 0 && cs[n - 1] == cs[n] then Collapse(cs[..n])
        else Collapse(cs[..n]) + (if cs[n] == Blank then [] else [cs[n]])
  {
    var n := |cs| - 1;
    if n == 0 {
      assert Dedup(cs) == [] + [cs[0]];
      RemoveBlanksSnoc([], cs[0]);
    } else if cs[n - 1] != cs[n] {
      RemoveBlanksSnoc(Dedup(cs[..n]), cs[n]);
    }
  }

  /** The last of a sequence of classes, `-1` for none: the `prev` of a path. */
  function Last(ix: seq<nat>): int {
    if ix == [] then -1 else ix[|ix| - 1]
  }

  /** The last class chosen is the class of the last candidate. */
  lemma ClassesLast(cs: seq<Candidate>)
    ensures Last(Classes(cs)) == if cs == [] then -1 else cs[|cs| - 1].index
  {
  }

  /** The classes of one more candidate. */
  lemma ClassesSnoc(cs: seq<Candidate>, c: Candidate)
    ensures Classes(cs + [c]) == Classes(cs) + [c.index]
  {
    assert (cs + [c])[..|cs|] == cs;
  }

  /**
   * One extension keeps the text equal to the glyphs of the collapse, given
   * that `prev` is the last class so far.
   */
  lemma ExtendText(ix: seq<nat>, p: Path, c: Candidate, all: seq<nat>)
    requires p.text == Render(Collapse(ix))
    requires p.prev == Last(ix)
    requires all == ix + [c.index]
    ensures Extend(p, c).text == Render(Collapse(all))
  {
    var n := |ix|;
    assert all[..n] == ix;
    CollapseLast(all);
    var prior := Collapse(ix);
    if n > 0 && ix[n - 1] == c.index {
      assert Collapse(all) == prior;
    } else if c.index == Blank {
      assert Collapse(all) == prior + [];
      assert prior + [] == prior;
    } else {
      assert Collapse(all) == prior + [c.index];
      RenderSnoc(prior, c.index);
    }
  }

  /** A non-empty sequence is its prefix and its last element. */
  lemma SplitLast<T>(s: seq<T>)
    requires s != []
    ensures s == s[..|s| - 1] + [s[|s| - 1]]
  {
  }

  /** The text of a path, carried over one more candidate. */
  lemma TextSnoc(before: seq<Candidate>, c: Candidate)
    requires Follow(before).text == Render(Collapse(Classes(before)))
    requires Follow(before).prev == if before == [] then -1 else before[|before| - 1].index
    ensures Follow(before + [c]).text == Render(Collapse(Classes(before + [c])))
  {
    FollowSnoc(before, c);
    ClassesSnoc(before, c);
    ClassesLast(before);
    ExtendText(Classes(before), Follow(before), c, Classes(before + [c]));
  }

  /** The score and the last class of a path, carried over one more candidate. */
  lemma ScoreSnoc(before: seq<Candidate>, c: Candidate)
    requires Follow(before).score == Sum(before)
    ensures Follow(before + [c]).score == Sum(before + [c])
    ensures Follow(before + [c]).prev == c.index
  {
    FollowSnoc(before, c);
    assert (before + [c])[..|before|] == before;
  }

  /**
   * A path's text is the glyphs of the collapse of the classes it chose, its
   * score the sum of their step scores, and its `prev` the last class chosen.
   */
  lemma {:induction false} FollowMeaning(cs: seq<Candidate>)
    ensures Follow(cs).text == Render(Collapse(Classes(cs)))
    ensures Follow(cs).score == Sum(cs)
    ensures Follow(cs).prev == if cs == [] then -1 else cs[|cs| - 1].index
  {
    if cs != [] {
      var before := cs[..|cs| - 1];
      FollowMeaning(before);
      TextSnoc(before, cs[|cs| - 1]);
      ScoreSnoc(before, cs[|cs| - 1]);
      SplitLast(cs);
    }
  }

  /* ---------------------------------------------------------------------- */
  /* Candidates: the stable top-k of a row                                   */
  /* ---------------------------------------------------------------------- */

  /** `a` comes before `b` in a stable descending sort of a row: higher score, or equal score and lower class. */
  predicate Before(a: Candidate, b: Candidate) {
    a.score > b.score || (a.score == b.score && a.index < b.index)
  }

  /** The classes among `cs`. */
  function Chosen(cs: seq<Candidate>): set<nat> {
    set i | 0 <= i < |cs| :: cs[i].index
  }

  /**
   * `cs` is the top `k` of `row`: `min(k, |row|)` classes of the row with
   * their own scores, in order, and every class left out comes after every
   * class taken, so ties go to the lower class index.
   */
  ghost predicate IsTopK(row: seq<int>, k: nat, cs: seq<Candidate>) {
    && |cs| == Min(k, |row|)
    && (forall i :: 0 <= i < |cs| ==> cs[i].index < |row| && cs[i].score == row[cs[i].index])
    && (forall i, j :: 0 <= i < j < |cs| ==> Before(cs[i], cs[j]))
    && (forall i, x :: 0 <= i < |cs| && 0 <= x < |row| && x !in Chosen(cs) ==> Before(cs[i], Candidate(row[x], x)))
  }

  /** The sorted row holds exactly the classes of the row, each with its own score. */
  lemma SortedRowMembers(row: seq<int>)
    ensures var sorted := SortDesc(Indexed(row), CandidateScore);
      && (forall i :: 0 <= i < |sorted| ==> sorted[i].index < |row| && sorted[i].score == row[sorted[i].index])
      && (forall x :: 0 <= x < |row| ==> Candidate(row[x], x) in sorted)
  {
    var ix := Indexed(row);
    var sorted := SortDesc(ix, CandidateScore);
    IndexedAt(row);
    SortDescPermutes(ix, CandidateScore);
    forall i | 0 <= i < |sorted|
      ensures sorted[i].index < |row| && sorted[i].score == row[sorted[i].index]
    {
      assert sorted[i] in multiset(ix);
      var q :| 0 <= q < |ix| && ix[q] == sorted[i];
    }
    forall x | 0 <= x < |row| ensures Candidate(row[x], x) in sorted {
      assert ix[x] in multiset(sorted);
    }
  }

  /** The sorted row is in `Before` order. */
  lemma SortedRowOrder(row: seq<int>)
    ensures var sorted := SortDesc(Indexed(row), CandidateScore);
      forall i, j :: 0 <= i < j < |sorted| ==> Before(sorted[i], sorted[j])
  {
    var ix := Indexed(row);
    IndexedAt(row);
    assert StrictlyAscending(ix, CandidateIndex);
    SortDescIsStable(ix, CandidateScore, CandidateIndex);
  }

  /** A path is extended by the stable top `k` classes of the row (ties to the lower class). */
  lemma CandidatesAreTopK(row: seq<int>, k: nat)
    ensures IsTopK(row, k, Candidates(row, k))
  {
    var sorted := SortDesc(Indexed(row), CandidateScore);
    var cs := Candidates(row, k);
    SortedRowMembers(row);
    SortedRowOrder(row);
    forall i, x | 0 <= i < |cs| && 0 <= x < |row| && x !in Chosen(cs)
      ensures Before(cs[i], Candidate(row[x], x))
    {
      var p :| 0 <= p < |sorted| && sorted[p] == Candidate(row[x], x);
    }
  }

  /* ---------------------------------------------------------------------- */
  /* The beam                                                                */
  /* ---------------------------------------------------------------------- */

  /** An extension of one path is that path extended by one of the candidates. */
  lemma {:induction false} ExtendAllMembers(p: Path, cs: seq<Candidate>, q: Path) returns (j: nat)
    requires q in ExtendAll(p, cs)
    ensures j < |cs| && q == Extend(p, cs[j])
  {
    var n := |cs| - 1;
    if q == Extend(p, cs[n]) {
      j := n;
    } else {
      j := ExtendAllMembers(p, cs[..n], q);
      assert cs[..n][j] == cs[j];
    }
  }

  /** Every expansion is a live path extended by one of the row's candidates. */
  lemma {:induction false} ExpandMembers(paths: seq<Path>, row: seq<int>, k: nat, q: Path) returns (i: nat, j: nat)
    requires q in Expand(paths, row, k)
    ensures i < |paths| && j < |Candidates(row, k)| && q == Extend(paths[i], Candidates(row, k)[j])
  {
    var n := |paths| - 1;
    if q in ExtendAll(paths[n], Candidates(row, k)) {
      i := n;
      j := ExtendAllMembers(paths[n], Candidates(row, k), q);
    } else {
      i, j := ExpandMembers(paths[..n], row, k, q);
      assert paths[..n][i] == paths[i];
    }
  }

  /** After every timestep the beam holds at most `k` paths, best score first. */
  lemma {:induction false} BeamBounded(data: seq<int>, C: nat, k: nat, t: nat)
    requires t > 0
    ensures |Beam(data, C, k, t)| <= k
    ensures Descending(Beam(data, C, k, t), ScoreOf)
  {
    SortDescOrders(Expand(Beam(data, C, k, t - 1), Row(data, C, t - 1), k), ScoreOf);
  }

  /**
   * Pruning keeps the top `k` expansions. `order` is the stable descending
   * order of the expansions by score (a permutation of their positions); the
   * kept paths are its first `min(k, |next|)` entries, so each kept path is one
   * of the expansions, and every dropped expansion scores less than every kept
   * one or, scoring the same, was generated after it.
   */
  lemma PruneIsTopK(next: seq<Path>, k: nat) returns (order: seq<nat>)
    ensures SortsStably(next, ScoreOf, order)
    ensures |Prune(next, k)| == Min(k, |next|)
    ensures forall i :: 0 <= i < |Prune(next, k)| ==> Prune(next, k)[i] == next[order[i]]
    ensures multiset(Prune(next, k)) <= multiset(next)
    ensures forall i, d :: 0 <= i < |Prune(next, k)| <= d < |next| ==>
              next[order[d]].score < Prune(next, k)[i].score
              || (next[order[d]].score == Prune(next, k)[i].score && order[i] < order[d])
  {
    var sorted := SortDesc(next, ScoreOf);
    order := SortDescOrder(next, ScoreOf);
    SortDescPermutes(next, ScoreOf);
    var m := Min(k, |next|);
    assert Prune(next, k) == sorted[..m];
    assert sorted == sorted[..m] + sorted[m..];
    assert multiset(sorted) == multiset(sorted[..m]) + multiset(sorted[m..]);
  }

  /** A row offers `min(k, |row|)` candidates. */
  lemma CandidateCount(row: seq<int>, k: nat)
    ensures |Candidates(row, k)| == Min(k, |row|)
  {
  }

  /** Each path of a beam is extended by every candidate of the row. */
  lemma {:induction false} ExpandSize(paths: seq<Path>, row: seq<int>, k: nat)
    ensures |Expand(paths, row, k)| == |paths| * |Candidates(row, k)|
  {
    if paths != [] {
      var n := |paths| - 1;
      var m := |Candidates(row, k)|;
      var before := Expand(paths[..n], row, k);
      assert |Expand(paths, row, k)| == |before| + m;
      ExpandSize(paths[..n], row, k);
      MulStep(n, m);
    }
  }

  lemma MulStep(n: nat, m: nat)
    ensures n * m + m == (n + 1) * m
  {
  }

  /**
   * The exact size of the beam: after a timestep it holds the top `min(k, n)`
   * of the `n = |beam| * min(k, |row|)` expansions of the previous beam.
   */
  lemma BeamSize(data: seq<int>, C: nat, k: nat, t: nat)
    requires t > 0
    ensures var prev := Beam(data, C, k, t - 1);
            var row := Row(data, C, t - 1);
            && |Expand(prev, row, k)| == |prev| * Min(k, |row|)
            && |Beam(data, C, k, t)| == Min(k, |Expand(prev, row, k)|)
  {
    var prev := Beam(data, C, k, t - 1);
    var row := Row(data, C, t - 1);
    ExpandSize(prev, row, k);
    CandidateCount(row, k);
    var order := PruneIsTopK(Expand(prev, row, k), k);
  }

  /** No timesteps, or a beam width of 0, decode to the empty string. */
  lemma DegenerateInputs(data: seq<int>, T: nat, C: nat, k: nat)
    ensures T == 0 ==> Decode(data, T, C, k) == ""
    ensures k == 0 && T > 0 ==> Beam(data, C, k, T) == [] && Decode(data, T, C, k) == ""
  {
  }

  lemma FollowSnoc(before: seq<Candidate>, c: Candidate)
    ensures Follow(before + [c]) == Extend(Follow(before), c)
  {
    assert (before + [c])[..|before|] == before;
  }

  /** Reading one more candidate from the next row. */
  lemma ReadsSnoc(data: seq<int>, C: nat, before: seq<Candidate>, c: Candidate)
    requires Reads(data, C, before)
    requires c.index < |Row(data, C, |before|)| && c.score == Row(data, C, |before|)[c.index]
    ensures Reads(data, C, before + [c])
  {
    assert (before + [c])[..|before|] == before;
  }

  /** A candidate of a row is a class of that row with its own score. */
  lemma CandidateOfRow(row: seq<int>, k: nat, j: nat)
    requires j < |Candidates(row, k)|
    ensures var c := Candidates(row, k)[j]; c.index < |row| && c.score == row[c.index]
  {
    SortedRowMembers(row);
    assert Candidates(row, k)[j] == SortDesc(Indexed(row), CandidateScore)[j];
  }

  /** A pruned path is one of the expansions. */
  lemma PrunedIsExpansion(next: seq<Path>, k: nat, p: Path)
    requires p in Prune(next, k)
    ensures p in next
  {
    SortDescPermutes(next, ScoreOf);
    assert p in multiset(SortDesc(next, ScoreOf));
  }

  /** Every path kept after a timestep is a live path extended by one of the row's candidates. */
  lemma StepOrigin(prev: seq<Path>, row: seq<int>, k: nat, n: nat) returns (i: nat, j: nat)
    requires n < |Prune(Expand(prev, row, k), k)|
    ensures i < |prev| && j < |Candidates(row, k)|
    ensures Prune(Expand(prev, row, k), k)[n] == Extend(prev[i], Candidates(row, k)[j])
  {
    var next := Expand(prev, row, k);
    var p := Prune(next, k)[n];
    PrunedIsExpansion(next, k, p);
    i, j := ExpandMembers(prev, row, k, p);
  }

  /** Every path of the beam after `s + 1` timesteps extends a path of the beam after `s` by a candidate of row `s`. */
  lemma BeamOrigin(data: seq<int>, C: nat, k: nat, s: nat, n: nat) returns (i: nat, c: Candidate)
    requires n < |Beam(data, C, k, s + 1)|
    ensures i < |Beam(data, C, k, s)|
    ensures c.index < |Row(data, C, s)| && c.score == Row(data, C, s)[c.index]
    ensures Beam(data, C, k, s + 1)[n] == Extend(Beam(data, C, k, s)[i], c)
  {
    var prev := Beam(data, C, k, s);
    var row := Row(data, C, s);
    assert Beam(data, C, k, s + 1) == Prune(Expand(prev, row, k), k);
    var j;
    i, j := StepOrigin(prev, row, k, n);
    CandidateOfRow(row, k, j);
    c := Candidates(row, k)[j];
  }

  /** Reading one more class extends the path by it. */
  lemma ReadOneMore(data: seq<int>, C: nat, before: seq<Candidate>, c: Candidate) returns (cs: seq<Candidate>)
    requires Reads(data, C, before)
    requires c.index < |Row(data, C, |before|)| && c.score == Row(data, C, |before|)[c.index]
    ensures |cs| == |before| + 1 && Reads(data, C, cs)
    ensures Follow(cs) == Extend(Follow(before), c)
  {
    ReadsSnoc(data, C, before, c);
    FollowSnoc(before, c);
    cs := before + [c];
  }

  /**
   * Every path in the beam after `t` timesteps is the path of some reading
   * of `t` classes, one from each row with its own score: `cs` is that reading.
   */
  lemma {:induction false} BeamPathReading(data: seq<int>, C: nat, k: nat, t: nat, n: nat) returns (cs: seq<Candidate>)
    ensures n < |Beam(data, C, k, t)| ==>
      |cs| == t && Reads(data, C, cs) && Beam(data, C, k, t)[n] == Follow(cs)
    decreases t
  {
    cs := [];
    if n < |Beam(data, C, k, t)| && t > 0 {
      var s := t - 1;
      var i, c := BeamOrigin(data, C, k, s, n);
      var before := BeamPathReading(data, C, k, s, i);
      cs := ReadOneMore(data, C, before, c);
    }
  }

  /**
   * The decoded text is the collapse of some reading of one class per
   * timestep; in particular it is no longer than the number of timesteps.
   */
  lemma DecodeIsACollapse(data: seq<int>, T: nat, C: nat, k: nat)
    ensures Beam(data, C, k, T) != [] ==>
      exists cs :: |cs| == T && Reads(data, C, cs) && Decode(data, T, C, k) == Render(Collapse(Classes(cs)))
    ensures |Decode(data, T, C, k)| <= T
  {
    var b := Beam(data, C, k, T);
    if b != [] {
      var cs := BeamPathReading(data, C, k, T, 0);
      FollowMeaning(cs);
    }
  }

  /**
   * The returned text is that of the first expansion of the last timestep
   * with the highest score (FirstMax states both), or `''` when that
   * timestep leaves no expansion.
   */
  lemma DecodePicksFirstBestPath(data: seq<int>, T: nat, C: nat, k: nat)
    requires T > 0 && k > 0
    ensures var next := Expand(Beam(data, C, k, T - 1), Row(data, C, T - 1), k);
      && (next == [] ==> Decode(data, T, C, k) == "")
      && (next != [] ==> Decode(data, T, C, k) == next[FirstMax(next, ScoreOf)].text)
  {
    var next := Expand(Beam(data, C, k, T - 1), Row(data, C, T - 1), k);
    if next != [] {
      HeadIsFirstMax(next, ScoreOf);
    }
  }

  /* ---------------------------------------------------------------------- */
  /* Beam width 1 is greedy decoding                                         */
  /* ---------------------------------------------------------------------- */

  function Id(x: int): int { x }

  lemma {:induction false} OffsetGrows(t: nat, T: nat, C: nat)
    requires t <= T
    ensures Offset(t, C) <= Offset(T, C)
  {
    if t < T {
      OffsetGrows(t, T - 1, C);
    }
  }

  /** In a whole `[T, 1, C]` tensor every row below `T` has all `C` classes. */
  lemma RowIsWhole(data: seq<int>, T: nat, C: nat, t: nat)
    requires |data| == Offset(T, C) && t < T
    ensures |Row(data, C, t)| == C
  {
    OffsetGrows(t + 1, T, C);
  }

  /** The first arg-max class of each of the first `t` rows (that have a class), with its step score. */
  function GreedyPath(data: seq<int>, C: nat, t: nat): (cs: seq<Candidate>)
    ensures |cs| <= t
  {
    if t == 0 then []
    else
      var row := Row(data, C, t - 1);
      var a := if row == [] then 0 else FirstMax(row, Id);
      GreedyPath(data, C, t - 1) + (if row == [] then [] else [Candidate(row[a], a)])
  }

  /** The one candidate at beam width 1 is the first arg-max class of the row. */
  lemma TopOfRow(row: seq<int>)
    requires row != []
    ensures Candidates(row, 1) == [Candidate(row[FirstMax(row, Id)], FirstMax(row, Id))]
  {
    var a := FirstMax(row, Id);
    var ix := Indexed(row);
    IndexedAt(row);
    HeadIsFirstMax(ix, CandidateScore);
    var m := FirstMax(ix, CandidateScore);
    assert ix[m].score == row[m] && ix[a].score == row[a];
  }

  /** One timestep at beam width 1 extends the single path by the row's first arg-max class. */
  lemma WidthOneStep(p: Path, row: seq<int>)
    requires row != []
    ensures var a := FirstMax(row, Id);
      Prune(Expand([p], row, 1), 1) == [Extend(p, Candidate(row[a], a))]
  {
    var a := FirstMax(row, Id);
    var q := Extend(p, Candidate(row[a], a));
    TopOfRow(row);
    assert [p][..0] == [];
    assert Expand([p], row, 1) == [q];
    assert SortDesc([q], ScoreOf) == [q];
  }

  /** In a whole tensor every row has a class, so the greedy path takes the first arg-max of each. */
  lemma GreedyStep(data: seq<int>, T: nat, C: nat, t: nat)
    requires C > 0 && |data| == Offset(T, C) && 0 < t <= T
    ensures |Row(data, C, t - 1)| == C
    ensures var row := Row(data, C, t - 1); var a := FirstMax(row, Id);
      GreedyPath(data, C, t) == GreedyPath(data, C, t - 1) + [Candidate(row[a], a)]
  {
    RowIsWhole(data, T, C, t - 1);
  }

  /** The greedy path through the first `t` rows of a whole tensor has one class per row. */
  lemma {:induction false} GreedyPathIsWhole(data: seq<int>, T: nat, C: nat, t: nat)
    requires C > 0 && |data| == Offset(T, C) && t <= T
    ensures |GreedyPath(data, C, t)| == t
  {
    if t > 0 {
      GreedyPathIsWhole(data, T, C, t - 1);
      GreedyStep(data, T, C, t);
    }
  }

  /** A single path followed by `before`, advanced at beam width 1, is followed by `before` and the row's first arg-max. */
  lemma GreedyLink(prevBeam: seq<Path>, before: seq<Candidate>, row: seq<int>, after: seq<Candidate>)
    ensures row != [] && |prevBeam| == 1 && prevBeam[0] == Follow(before)
      && after == before + [Candidate(row[FirstMax(row, Id)], FirstMax(row, Id))]
      ==> |Prune(Expand(prevBeam, row, 1), 1)| == 1 && Prune(Expand(prevBeam, row, 1), 1)[0] == Follow(after)
  {
    if row != [] && |prevBeam| == 1 && prevBeam[0] == Follow(before) {
      var a := FirstMax(row, Id);
      assert prevBeam == [Follow(before)];
      FollowSnoc(before, Candidate(row[a], a));
      WidthOneStep(Follow(before), row);
    }
  }

  /** After the first timestep at beam width 1 the beam is the single path of the first greedy class. */
  lemma GreedyBeamFirst(data: seq<int>, T: nat, C: nat)
    requires C > 0 && |data| == Offset(T, C) && 0 < T
    ensures |Beam(data, C, 1, 1)| == 1 && Beam(data, C, 1, 1)[0] == Follow(GreedyPath(data, C, 1))
  {
    GreedyStep(data, T, C, 1);
    GreedyLink([Start], [], Row(data, C, 0), GreedyPath(data, C, 1));
  }

  /** One more timestep at beam width 1 keeps the beam the single path of the greedy classes. */
  lemma GreedyBeamStep(data: seq<int>, T: nat, C: nat, t: nat, before: seq<Candidate>)
    requires C > 0 && |data| == Offset(T, C) && 1 < t <= T
    requires before == GreedyPath(data, C, t - 1)
    requires |Beam(data, C, 1, t - 1)| == 1 && Beam(data, C, 1, t - 1)[0] == Follow(before)
    ensures |Beam(data, C, 1, t)| == 1 && Beam(data, C, 1, t)[0] == Follow(GreedyPath(data, C, t))
  {
    GreedyStep(data, T, C, t);
    GreedyLink(Beam(data, C, 1, t - 1), before, Row(data, C, t - 1), GreedyPath(data, C, t));
  }

  /** At beam width 1 the beam is the single path of the greedy classes. */
  lemma {:induction false} GreedyBeam(data: seq<int>, T: nat, C: nat, t: nat) returns (cs: seq<Candidate>)
    requires C > 0 && |data| == Offset(T, C) && t <= T
    ensures cs == GreedyPath(data, C, t)
    ensures |Beam(data, C, 1, t)| == 1 && Beam(data, C, 1, t)[0] == Follow(cs)
  {
    cs := GreedyPath(data, C, t);
    if t == 1 {
      GreedyBeamFirst(data, T, C);
    } else if t > 1 {
      var before := GreedyBeam(data, T, C, t - 1);
      GreedyBeamStep(data, T, C, t, before);
    }
  }

  /**
   * With beam width 1 the decoder is greedy: its text is the collapse of the
   * first arg-max class of every timestep.
   */
  lemma GreedyAtWidthOne(data: seq<int>, T: nat, C: nat)
    requires C > 0 && |data| == T * C
    ensures |GreedyPath(data, C, T)| == T
    ensures Decode(data, T, C, 1) == Render(Collapse(Classes(GreedyPath(data, C, T))))
  {
    OffsetIsProduct(T, C);
    GreedyPathIsWhole(data, T, C, T);
    var cs := GreedyBeam(data, T, C, T);
    FollowMeaning(cs);
  }

  /* ---------------------------------------------------------------------- */
  /* Any beam width of at least 1 returns the greedy text                    */
  /* ---------------------------------------------------------------------- */

  /** The first extension of a path is by the first candidate. */
  lemma {:induction false} ExtendAllHead(p: Path, cs: seq<Candidate>)
    requires cs != []
    ensures ExtendAll(p, cs)[0] == Extend(p, cs[0])
  {
    var n := |cs| - 1;
    if n > 0 {
      ExtendAllHead(p, cs[..n]);
    }
  }

  /** The first expansion extends the first live path by the first candidate. */
  lemma {:induction false} ExpandHead(paths: seq<Path>, row: seq<int>, k: nat)
    requires paths != [] && Candidates(row, k) != []
    ensures |Expand(paths, row, k)| > 0
    ensures Expand(paths, row, k)[0] == Extend(paths[0], Candidates(row, k)[0])
  {
    var n := |paths| - 1;
    if n == 0 {
      assert paths[..n] == [];
      ExtendAllHead(paths[0], Candidates(row, k));
    } else {
      ExpandHead(paths[..n], row, k);
    }
  }

  /** Without candidates nothing is expanded. */
  lemma {:induction false} ExpandNothing(paths: seq<Path>, row: seq<int>, k: nat)
    requires Candidates(row, k) == []
    ensures Expand(paths, row, k) == []
  {
    if paths != [] {
      ExpandNothing(paths[..|paths| - 1], row, k);
    }
  }

  /** For every width of at least 1 the row has candidates exactly when it is not empty, led by the same class. */
  lemma LeadingCandidate(row: seq<int>, k: nat)
    requires k >= 1
    ensures Candidates(row, k) != [] <==> row != []
    ensures row != [] ==> Candidates(row, k)[0] == Candidates(row, 1)[0]
  {
    CandidatesAreTopK(row, k);
    CandidatesAreTopK(row, 1);
  }

  /** A list whose first element has a largest key keeps it first when sorted and pruned. */
  lemma PruneKeepsLeader(next: seq<Path>, k: nat)
    requires k >= 1 && next != []
    requires forall m :: 0 <= m < |next| ==> next[m].score <= next[0].score
    ensures Prune(next, k) != [] && Prune(next, k)[0] == next[0]
  {
    assert FirstMax(next, ScoreOf) == 0;
    HeadIsFirstMax(next, ScoreOf);
  }

  /**
   * One timestep at width `k >= 1` from a beam sorted best first: the new head
   * is the old head extended by the row's leading class, whatever `k` is.
   */
  lemma StepLeader(prev: seq<Path>, row: seq<int>, k: nat)
    requires k >= 1 && Descending(prev, ScoreOf)
    ensures |Prune(Expand(prev, row, k), k)| > 0 <==> prev != [] && row != []
    ensures prev != [] && row != [] ==> Prune(Expand(prev, row, k), k)[0] == Extend(prev[0], Candidates(row, 1)[0])
  {
    LeadingCandidate(row, k);
    var cs := Candidates(row, k);
    var next := Expand(prev, row, k);
    if prev == [] || row == [] {
      if row == [] {
        ExpandNothing(prev, row, k);
      }
      assert next == [];
    } else {
      ExpandHead(prev, row, k);
      CandidatesAreTopK(row, k);
      forall m | 0 <= m < |next|
        ensures next[m].score <= next[0].score
      {
        var i, j := ExpandMembers(prev, row, k, next[m]);
        if i > 0 {
          assert ScoreOf(prev[0]) >= ScoreOf(prev[i]);
        }
        if j > 0 {
          assert Before(cs[0], cs[j]);
        }
      }
      PruneKeepsLeader(next, k);
    }
  }

  /** A beam is always sorted best first. */
  lemma BeamDescending(data: seq<int>, C: nat, k: nat, t: nat)
    ensures Descending(Beam(data, C, k, t), ScoreOf)
  {
    if t > 0 {
      BeamBounded(data, C, k, t);
    }
  }

  /** Two sorted beams that agree on emptiness and on their leader still agree after one more timestep at widths `k` and 1. */
  lemma WidthStep(wide: seq<Path>, narrow: seq<Path>, row: seq<int>, k: nat)
    requires k >= 1 && Descending(wide, ScoreOf) && Descending(narrow, ScoreOf)
    requires |wide| > 0 <==> |narrow| > 0
    requires |wide| > 0 ==> wide[0] == narrow[0]
    ensures |Prune(Expand(wide, row, k), k)| > 0 <==> |Prune(Expand(narrow, row, 1), 1)| > 0
    ensures |Prune(Expand(wide, row, k), k)| > 0 ==> Prune(Expand(wide, row, k), k)[0] == Prune(Expand(narrow, row, 1), 1)[0]
  {
    StepLeader(wide, row, k);
    StepLeader(narrow, row, 1);
  }

  /** After every timestep the beam at width `k >= 1` is empty exactly when the one at width 1 is, and both lead with the same path. */
  lemma {:induction false} LeaderIsGreedy(data: seq<int>, C: nat, k: nat, t: nat)
    requires k >= 1
    ensures |Beam(data, C, k, t)| > 0 <==> |Beam(data, C, 1, t)| > 0
    ensures |Beam(data, C, k, t)| > 0 ==> Beam(data, C, k, t)[0] == Beam(data, C, 1, t)[0]
  {
    if t == 1 {
      var row := Row(data, C, 0);
      StepLeader([Start], row, k);
      StepLeader([Start], row, 1);
    } else if t > 1 {
      LeaderIsGreedy(data, C, k, t - 1);
      BeamDescending(data, C, k, t - 1);
      BeamDescending(data, C, 1, t - 1);
      WidthStep(Beam(data, C, k, t - 1), Beam(data, C, 1, t - 1), Row(data, C, t - 1), k);
    }
  }

  /**
   * The text `decodeOutput` returns does not depend on the beam width, as long
   * as it is at least 1: the emitted glyphs and the scores are both fixed by
   * the class chosen, so the best path always extends the previous best path.
   */
  lemma DecodeIsGreedyAtAnyWidth(data: seq<int>, T: nat, C: nat, k: nat)
    requires k >= 1
    ensures Decode(data, T, C, k) == Decode(data, T, C, 1)
  {
    LeaderIsGreedy(data, C, k, T);
  }

  /** On a whole tensor every beam width of at least 1 returns the collapse of the first arg-max classes. */
  lemma GreedyAtAnyWidth(data: seq<int>, T: nat, C: nat, k: nat)
    requires k >= 1 && C > 0 && |data| == T * C
    ensures Decode(data, T, C, k) == Render(Collapse(Classes(GreedyPath(data, C, T))))
  {
    DecodeIsGreedyAtAnyWidth(data, T, C, k);
    GreedyAtWidthOne(data, T, C);
  }

  /** The greedy classes of two timesteps whose first arg-max classes are 5461 and 1204. */
  lemma TwoStepClasses(data: seq<int>, C: nat)
    requires C > 5461 && |data| == 2 * C
    requires FirstMax(Row(data, C, 0), Id) == 5461 && FirstMax(Row(data, C, 1), Id) == 1204
    ensures Classes(GreedyPath(data, C, 2)) == [5461, 1204]
  {
    OffsetIsProduct(2, C);
    GreedyStep(data, 2, C, 1);
    GreedyStep(data, 2, C, 2);
    var a, b := Row(data, C, 0)[5461], Row(data, C, 1)[1204];
    assert GreedyPath(data, C, 2) == [Candidate(a, 5461), Candidate(b, 1204)];
    ClassesSnoc([Candidate(a, 5461)], Candidate(b, 1204));
    ClassesSnoc([], Candidate(a, 5461));
  }

  /** Two different non-blank classes survive the collapse. */
  lemma DistinctPairCollapse(x: nat, y: nat)
    requires x != Blank && y != Blank && x != y
    ensures Collapse([x, y]) == [x, y]
  {
    SingleCollapse(x);
    assert Dedup([x]) == [x];
    assert Dedup([x, y]) == [x, y];
    RemoveBlanksSnoc([x], y);
    Appended(x, y, y);
  }

  /** Two timesteps whose first arg-max classes are those of "A" and "B" read "AB" at every beam width, the default 3 included. */
  lemma TwoStepExample(data: seq<int>, C: nat, k: nat)
    requires k >= 1 && C > 5461 && |data| == 2 * C
    requires FirstMax(Row(data, C, 0), Id) == 5461 && FirstMax(Row(data, C, 1), Id) == 1204
    ensures Decode(data, 2, C, k) == "AB"
  {
    GreedyAtAnyWidth(data, 2, C, k);
    TwoStepClasses(data, C);
    DistinctPairCollapse(5461, 1204);
    GlyphExample();
  }
}
