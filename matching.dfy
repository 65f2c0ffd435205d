/** What the notes page does with `new RegExp(`(${term})`, 'gi')` for a literal
    term: scan left to right for case-insensitive occurrences, skip past each one
    found (so occurrences never overlap), and either count them (`String.match`)
    or cut the text around them (`String.split` with a capturing group). */
module Matching {
  import opened Strings

  /** The term `t` occurs at position `i` of `s`, ignoring ASCII case. */
  predicate MatchAt(s: string, t: string, i: nat) {
    i + |t| <= |s| && Lower(s[i..i + |t|]) == Lower(t)
  }

  /** `ps` are positions in `[from, n)` of occurrences `w` long, in increasing order,
      each starting at or after the end of every earlier one. */
  predicate Spaced(ps: seq<nat>, w: nat, from: nat, n: nat) {
    && from <= n
    && (forall k :: 0 <= k < |ps| ==> from <= ps[k] && ps[k] + w <= n)
    && (forall k, k' :: 0 <= k < k' < |ps| ==> ps[k] + w <= ps[k'])
  }

  /** The start positions a global scan from position `i` reports: try `i`; on an
      occurrence record it and resume after it, otherwise resume at `i + 1`. */
  function StartsFrom(s: string, t: string, i: nat): (r: seq<nat>)
    requires |t| > 0 && i <= |s|
    ensures Spaced(r, |t|, i, |s|)
    ensures forall k :: 0 <= k < |r| ==> MatchAt(s, t, r[k])
    decreases |s| - i
  {
    if i + |t| > |s| then []
    else if MatchAt(s, t, i) then [i] + StartsFrom(s, t, i + |t|)
    else StartsFrom(s, t, i + 1)
  }

  function Starts(s: string, t: string): seq<nat>
    requires |t| > 0
  {
    StartsFrom(s, t, 0)
  }

  /** `s.match(regex).length`: how many occurrences the scan finds (0 where `match` gives `null`). */
  function Count(s: string, t: string): nat
    requires |t| > 0
  {
    CountFrom(s, t, 0)
  }

  /** The same scan, keeping only how many occurrences it finds. */
  function CountFrom(s: string, t: string, i: nat): nat
    requires |t| > 0 && i <= |s|
    decreases |s| - i
  {
    if i + |t| > |s| then 0
    else if MatchAt(s, t, i) then 1 + CountFrom(s, t, i + |t|)
    else CountFrom(s, t, i + 1)
  }

  /** Counting and recording the scan's positions agree. */
  lemma {:induction false} CountFromIsLength(s: string, t: string, i: nat)
    requires |t| > 0 && i <= |s|
    ensures CountFrom(s, t, i) == |StartsFrom(s, t, i)|
    decreases |s| - i
  {
    if i + |t| <= |s| {
      if MatchAt(s, t, i) {
        CountFromIsLength(s, t, i + |t|);
      } else {
        CountFromIsLength(s, t, i + 1);
      }
    }
  }

  lemma CountIsLength(s: string, t: string)
    requires |t| > 0
    ensures Count(s, t) == |Starts(s, t)|
  {
    CountFromIsLength(s, t, 0);
  }

  /** Position `j` lies inside one of the occurrences `w` long that start at `ps`. */
  predicate Covered(ps: seq<nat>, w: nat, j: nat) {
    exists k :: 0 <= k < |ps| && ps[k] <= j < ps[k] + w
  }

  lemma CoveredCons(i: nat, ps: seq<nat>, w: nat, j: nat)
    requires Covered(ps, w, j)
    ensures Covered([i] + ps, w, j)
  {
    var k :| 0 <= k < |ps| && ps[k] <= j < ps[k] + w;
    assert ([i] + ps)[k + 1] == ps[k];
  }

  /** The scan misses no occurrence: every occurrence at or after `i` either is
      reported or starts inside an occurrence that is. */
  lemma {:induction false} StartsFromComplete(s: string, t: string, i: nat, j: nat)
    requires |t| > 0 && i <= j <= |s|
    requires MatchAt(s, t, j)
    ensures Covered(StartsFrom(s, t, i), |t|, j)
    decreases |s| - i
  {
    if MatchAt(s, t, i) {
      var rest := StartsFrom(s, t, i + |t|);
      assert StartsFrom(s, t, i) == [i] + rest;
      if j < i + |t| {
        assert ([i] + rest)[0] == i;
      } else {
        StartsFromComplete(s, t, i + |t|, j);
        CoveredCons(i, rest, |t|, j);
      }
    } else {
      assert i + |t| <= j + |t| <= |s|;
      assert StartsFrom(s, t, i) == StartsFrom(s, t, i + 1);
      StartsFromComplete(s, t, i + 1, j);
    }
  }

  /** Every occurrence of `t` in `s` is reported or overlaps a reported one. */
  lemma StartsComplete(s: string, t: string, j: nat)
    requires |t| > 0 && MatchAt(s, t, j)
    ensures Covered(Starts(s, t), |t|, j)
  {
    StartsFromComplete(s, t, 0, j);
  }

  /** A page has a (positive) match count exactly when the term occurs in it somewhere. */
  lemma CountPositiveIffOccurs(s: string, t: string)
    requires |t| > 0
    ensures Count(s, t) > 0 <==> exists j :: MatchAt(s, t, j)
  {
    CountIsLength(s, t);
    var r := Starts(s, t);
    if exists j :: MatchAt(s, t, j) {
      var j :| MatchAt(s, t, j);
      StartsComplete(s, t, j);
    }
    if |r| > 0 {
      assert MatchAt(s, t, r[0]);
    }
  }

  /** Non-overlapping occurrences of `t` take up at most the whole string. */
  lemma {:induction false} CountBound(s: string, t: string, i: nat)
    requires |t| > 0 && i <= |s|
    ensures CountFrom(s, t, i) * |t| <= |s| - i
    decreases |s| - i
  {
    if i + |t| <= |s| {
      if MatchAt(s, t, i) {
        CountBound(s, t, i + |t|);
        MulSucc(CountFrom(s, t, i + |t|), |t|);
      } else {
        CountBound(s, t, i + 1);
      }
    }
  }

  lemma MulSucc(n: nat, w: nat)
    ensures (n + 1) * w == n * w + w
  {
  }

  function Join(parts: seq<string>): string {
    if parts == [] then [] else parts[0] + Join(parts[1..])
  }

  /** Where the plain part with index `k` begins and ends when `s[from..]` is cut
      around the occurrences at `ps`. */
  function PlainStart(ps: seq<nat>, w: nat, from: nat, k: nat): nat
    requires k <= |ps|
  {
    if k == 0 then from else ps[k - 1] + w
  }

  function PlainEnd(ps: seq<nat>, n: nat, k: nat): nat
    requires k <= |ps|
  {
    if k == |ps| then n else ps[k]
  }

  /** The parts of `s[from..]` around the occurrences at `ps`: plain text, the
      occurrence, plain text, ..., plain text (any plain part may be empty). */
  function Cut(s: string, ps: seq<nat>, w: nat, from: nat): (r: seq<string>)
    requires Spaced(ps, w, from, |s|)
    ensures |r| == 2 * |ps| + 1
    decreases |ps|
  {
    if ps == [] then [s[from..]]
    else [s[from..ps[0]], s[ps[0]..ps[0] + w]] + Cut(s, ps[1..], w, ps[0] + w)
  }

  /** The odd parts of a cut are the occurrences, as they are written in `s`. */
  lemma {:induction false} CutOdd(s: string, ps: seq<nat>, w: nat, from: nat, k: nat)
    requires Spaced(ps, w, from, |s|) && k < |ps|
    ensures Cut(s, ps, w, from)[2 * k + 1] == s[ps[k]..ps[k] + w]
    decreases |ps|
  {
    if k > 0 {
      CutOdd(s, ps[1..], w, ps[0] + w, k - 1);
    }
  }

  /** The even parts of a cut are the stretches of `s` between the occurrences. */
  lemma {:induction false} CutEven(s: string, ps: seq<nat>, w: nat, from: nat, k: nat)
    requires Spaced(ps, w, from, |s|) && k <= |ps|
    ensures PlainStart(ps, w, from, k) <= PlainEnd(ps, |s|, k)
    ensures Cut(s, ps, w, from)[2 * k] == s[PlainStart(ps, w, from, k)..PlainEnd(ps, |s|, k)]
    decreases |ps|
  {
    if k > 0 {
      CutTail(s, ps, w, from, k);
      CutEven(s, ps[1..], w, ps[0] + w, k - 1);
      assert PlainStart(ps, w, from, k) == PlainStart(ps[1..], w, ps[0] + w, k - 1);
      assert PlainEnd(ps, |s|, k) == PlainEnd(ps[1..], |s|, k - 1);
    }
  }

  /** Past the first occurrence, a cut continues as the cut of the rest. */
  lemma CutTail(s: string, ps: seq<nat>, w: nat, from: nat, k: nat)
    requires Spaced(ps, w, from, |s|) && 0 < k <= |ps|
    ensures Spaced(ps[1..], w, ps[0] + w, |s|)
    ensures Cut(s, ps, w, from)[2 * k] == Cut(s, ps[1..], w, ps[0] + w)[2 * (k - 1)]
  {
    var rest := Cut(s, ps[1..], w, ps[0] + w);
    assert Cut(s, ps, w, from) == [s[from..ps[0]], s[ps[0]..ps[0] + w]] + rest;
  }

  lemma {:induction false} CutJoin(s: string, ps: seq<nat>, w: nat, from: nat)
    requires Spaced(ps, w, from, |s|)
    ensures Join(Cut(s, ps, w, from)) == s[from..]
    decreases |ps|
  {
    if ps != [] {
      var r := Cut(s, ps, w, from);
      CutJoin(s, ps[1..], w, ps[0] + w);
      assert r[2..] == Cut(s, ps[1..], w, ps[0] + w);
      calc {
        Join(r);
        r[0] + Join(r[1..]);
        { assert r[1..][1..] == r[2..]; }
        r[0] + (r[1] + Join(r[2..]));
        s[from..ps[0]] + (s[ps[0]..ps[0] + w] + s[ps[0] + w..]);
        { assert s[ps[0]..] == s[ps[0]..ps[0] + w] + s[ps[0] + w..]; }
        s[from..ps[0]] + s[ps[0]..];
        { assert s[from..] == s[from..ps[0]] + s[ps[0]..]; }
        s[from..];
      }
    }
  }

  /** `s.split(new RegExp(`(${t})`, 'gi'))`: the text around the occurrences with
      the occurrences themselves kept at the odd positions. */
  function Split(s: string, t: string): seq<string>
    requires |t| > 0
  {
    Cut(s, Starts(s, t), |t|, 0)
  }

  /** Splitting loses nothing: the parts concatenate back to the text. */
  lemma SplitJoin(s: string, t: string)
    requires |t| > 0
    ensures Join(Split(s, t)) == s
  {
    CutJoin(s, Starts(s, t), |t|, 0);
  }

  /** There are `2 * Count + 1` parts; the one at odd position `2k + 1` is the `k`-th
      occurrence exactly as written in `s` (its own casing), and it equals the term up
      to case. */
  lemma SplitOddParts(s: string, t: string)
    requires |t| > 0
    ensures |Split(s, t)| == 2 * Count(s, t) + 1
    ensures forall k :: 0 <= k < Count(s, t) ==>
      var q := Starts(s, t)[k];
      && Split(s, t)[2 * k + 1] == s[q..q + |t|]
      && Lower(Split(s, t)[2 * k + 1]) == Lower(t)
  {
    CountIsLength(s, t);
    var ps := Starts(s, t);
    forall k | 0 <= k < |ps|
      ensures Split(s, t)[2 * k + 1] == s[ps[k]..ps[k] + |t|]
    {
      CutOdd(s, ps, |t|, 0, k);
    }
  }

  /** The plain part with index `k` is the stretch of `s` between the `k`-th occurrence and
      the one before it. */
  lemma SplitEvenParts(s: string, t: string, k: nat)
    requires |t| > 0 && k <= |Starts(s, t)|
    ensures var ps := Starts(s, t);
      Split(s, t)[2 * k] == s[PlainStart(ps, |t|, 0, k)..PlainEnd(ps, |s|, k)]
  {
    CutEven(s, Starts(s, t), |t|, 0, k);
  }

  /** No occurrence of the term starts anywhere inside a plain (even-position) part:
      the cut is the leftmost, non-overlapping one. */
  lemma SplitPlainPartsHaveNoMatchStart(s: string, t: string, k: nat, j: nat)
    requires |t| > 0 && k <= |Starts(s, t)|
    requires var ps := Starts(s, t);
      PlainStart(ps, |t|, 0, k) <= j < PlainEnd(ps, |s|, k)
    ensures !MatchAt(s, t, j)
  {
    if MatchAt(s, t, j) {
      StartsComplete(s, t, j);
    }
  }

  /** An occurrence inside a slice of `s` is an occurrence in `s`, shifted by where the
      slice starts. */
  lemma MatchInSlice(s: string, t: string, a: nat, b: nat, j: nat)
    requires a <= b <= |s| && MatchAt(s[a..b], t, j)
    ensures MatchAt(s, t, a + j) && a + j + |t| <= b
  {
    var u := s[a..b];
    assert |u| == b - a;
    var piece := u[j..j + |t|];
    var whole := s[a + j..a + j + |t|];
    forall i | 0 <= i < |t| ensures piece[i] == whole[i] {
      assert piece[i] == u[j + i];
    }
    assert piece == whole;
  }

  /** `regex.test(part)` on the parts of a split: it succeeds on exactly the parts at
      odd positions. */
  lemma SplitPartsClassified(s: string, t: string, k: nat)
    requires |t| > 0 && k < |Split(s, t)|
    ensures Count(Split(s, t)[k], t) > 0 <==> k % 2 == 1
  {
    CountIsLength(s, t);
    CountPositiveIffOccurs(Split(s, t)[k], t);
    if k % 2 == 1 {
      OddPartMatches(s, t, k / 2);
    } else {
      assert 2 * (k / 2) == k;
      EvenPartHasNoMatch(s, t, k / 2);
    }
  }

  lemma OddPartMatches(s: string, t: string, m: nat)
    requires |t| > 0 && m < |Starts(s, t)|
    ensures MatchAt(Split(s, t)[2 * m + 1], t, 0)
  {
    var ps := Starts(s, t);
    CutOdd(s, ps, |t|, 0, m);
    var part := Split(s, t)[2 * m + 1];
    assert part[0..|t|] == part;
  }

  lemma EvenPartHasNoMatch(s: string, t: string, m: nat)
    requires |t| > 0 && m <= |Starts(s, t)|
    ensures forall j :: !MatchAt(Split(s, t)[2 * m], t, j)
  {
    var ps := Starts(s, t);
    CutEven(s, ps, |t|, 0, m);
    var a := PlainStart(ps, |t|, 0, m);
    var b := PlainEnd(ps, |s|, m);
    forall j | MatchAt(Split(s, t)[2 * m], t, j) ensures false {
      MatchInSlice(s, t, a, b, j);
      SplitPlainPartsHaveNoMatchStart(s, t, m, a + j);
    }
  }
}
