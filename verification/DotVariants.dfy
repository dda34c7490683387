/**
 * The Gmail "dot trick": the aliases `generate_domain_names` derives from one
 * address by inserting dots between the characters of its local part.
 *
 * A placement of dots is an increasing tuple of boundaries `1 .. N-1` of a
 * local part of length N. It cuts the local part into segments, and the
 * variant is those segments joined by dots.
 */
module DotVariants {
  import opened Text
  import opened Combinations
  import opened PoolFile

  /** The only domain `generate_domain_names` accepts, with its `@`. */
  const GmailSuffix: string := "@gmail.com"

  /** `email.split('@')[0]`: the local part the dots are inserted into. */
  function LocalPart(email: string): (r: string)
    ensures '@' !in r
  {
    BeforeFirst(email, '@')
  }

  /** A placement of dots: increasing boundaries strictly inside a local part of length `n`. */
  predicate ValidCuts(ps: seq<int>, n: nat) {
    IsCombination(ps, 1, n, |ps|)
  }

  /** Where segment `i` starts: 0, then each boundary in turn, then `n` (the end). */
  function Bound(ps: seq<int>, n: nat, i: nat): (b: int)
    requires ValidCuts(ps, n) && i <= |ps| + 1
    ensures 0 <= b <= n
  {
    CombinationIndex(ps, 1, n, |ps|);
    if i == 0 then 0 else if i <= |ps| then ps[i - 1] else n
  }

  /** Boundaries are ordered, and strictly so once the local part is non-empty. */
  lemma BoundOrdered(ps: seq<int>, n: nat, i: nat, j: nat)
    requires ValidCuts(ps, n) && i < j <= |ps| + 1
    ensures 0 <= Bound(ps, n, i) <= Bound(ps, n, j) <= n
    ensures n > 0 ==> Bound(ps, n, i) < Bound(ps, n, j)
  {
    CombinationIndex(ps, 1, n, |ps|);
  }

  lemma BoundsOrdered(ps: seq<int>, n: nat)
    requires ValidCuts(ps, n)
    ensures forall i :: 0 <= i <= |ps| ==> Bound(ps, n, i) <= Bound(ps, n, i + 1)
  {
    forall i | 0 <= i <= |ps| ensures Bound(ps, n, i) <= Bound(ps, n, i + 1) {
      BoundOrdered(ps, n, i, i + 1);
    }
  }

  /** `segs` are the pieces of `u` between consecutive boundaries of `ps`. */
  predicate CutAt(u: string, ps: seq<int>, segs: seq<string>)
    requires ValidCuts(ps, |u|)
  {
    && |segs| == |ps| + 1
    && forall i :: 0 <= i <= |ps| ==>
      Bound(ps, |u|, i) <= Bound(ps, |u|, i + 1) && segs[i] == u[Bound(ps, |u|, i)..Bound(ps, |u|, i + 1)]
  }

  /** The first `j` pieces spell the local part up to boundary `j`. */
  lemma {:induction false} PiecesPrefix(u: string, ps: seq<int>, segs: seq<string>, j: nat)
    requires ValidCuts(ps, |u|) && CutAt(u, ps, segs) && j <= |ps| + 1
    ensures Concat(segs[..j]) == u[..Bound(ps, |u|, j)]
  {
    if j > 0 {
      PiecesPrefix(u, ps, segs, j - 1);
      var b, p := Bound(ps, |u|, j - 1), Bound(ps, |u|, j);
      assert u[..b] + u[b..p] == u[..p];
      assert segs[..j] == segs[..j - 1] + [segs[j - 1]];
      ConcatSnoc(segs[..j - 1], segs[j - 1]);
    }
  }

  /**
   * The pieces the placement cuts `u` into: one more than there are dots,
   * together spelling `u` again, none empty unless `u` is.
   */
  function Segments(u: string, ps: seq<int>): (r: seq<string>)
    requires ValidCuts(ps, |u|)
    ensures |r| == |ps| + 1
    ensures forall i :: 0 <= i <= |ps| ==>
      Bound(ps, |u|, i) <= Bound(ps, |u|, i + 1) && r[i] == u[Bound(ps, |u|, i)..Bound(ps, |u|, i + 1)]
    ensures Concat(r) == u
    ensures u != "" ==> forall i :: 0 <= i < |r| ==> r[i] != ""
  {
    BoundsOrdered(ps, |u|);
    var r := seq(|ps| + 1, i requires 0 <= i <= |ps| =>
      BoundOrdered(ps, |u|, i, i + 1);
      u[Bound(ps, |u|, i)..Bound(ps, |u|, i + 1)]);
    PiecesSpell(u, ps, r);
    r
  }

  /** Pieces cut at the boundaries spell the local part again, and none is empty unless it is. */
  lemma PiecesSpell(u: string, ps: seq<int>, segs: seq<string>)
    requires ValidCuts(ps, |u|) && CutAt(u, ps, segs)
    ensures Concat(segs) == u
    ensures u != "" ==> forall i :: 0 <= i < |segs| ==> segs[i] != ""
  {
    PiecesPrefix(u, ps, segs, |ps| + 1);
    assert segs[..|ps| + 1] == segs && u[..|u|] == u;
    forall i | 0 <= i < |segs| && u != "" ensures segs[i] != "" {
      BoundOrdered(ps, |u|, i, i + 1);
    }
  }

  /** The pieces joined by a dot between each two. */
  function JoinDots(xs: seq<string>): string
    requires |xs| >= 1
  {
    if |xs| == 1 then xs[0] else xs[0] + "." + JoinDots(xs[1..])
  }

  /** The pieces joined with nothing between them. */
  function Concat(xs: seq<string>): string {
    if xs == [] then "" else xs[0] + Concat(xs[1..])
  }

  /** The local part `u` with a dot inserted at every boundary of `ps`. */
  function Dotted(u: string, ps: seq<int>): string
    requires ValidCuts(ps, |u|)
  {
    JoinDots(Segments(u, ps))
  }

  /** The address produced for one placement. */
  function Variant(u: string, ps: seq<int>): string
    requires ValidCuts(ps, |u|)
  {
    Dotted(u, ps) + GmailSuffix
  }

  lemma {:induction false} ConcatSnoc(xs: seq<string>, y: string)
    ensures Concat(xs + [y]) == Concat(xs) + y
  {
    if xs != [] {
      assert (xs + [y])[1..] == xs[1..] + [y];
      ConcatSnoc(xs[1..], y);
    }
  }

  /** The first `j` segments spell the local part up to boundary `j`. */
  lemma SegmentsPrefix(u: string, ps: seq<int>, j: nat)
    requires ValidCuts(ps, |u|) && j <= |ps| + 1
    ensures Concat(Segments(u, ps)[..j]) == u[..Bound(ps, |u|, j)]
  {
    PiecesPrefix(u, ps, Segments(u, ps), j);
  }

  /** `|JoinDots(xs)|` counts every character of every piece plus one dot per gap. */
  lemma {:induction false} JoinDotsLength(xs: seq<string>)
    requires |xs| >= 1
    ensures |JoinDots(xs)| == |Concat(xs)| + |xs| - 1
  {
    if |xs| > 1 {
      JoinDotsLength(xs[1..]);
    }
  }

  /** Every character of a join is a dot or a character of one of the pieces. */
  lemma {:induction false} JoinDotsChars(xs: seq<string>)
    requires |xs| >= 1
    ensures forall k :: 0 <= k < |JoinDots(xs)| ==> JoinDots(xs)[k] == '.' || JoinDots(xs)[k] in Concat(xs)
  {
    if |xs| > 1 {
      JoinDotsChars(xs[1..]);
      var j := JoinDots(xs);
      forall k | 0 <= k < |j| ensures j[k] == '.' || j[k] in Concat(xs) {
        if k > |xs[0]| {
          assert j[k] == JoinDots(xs[1..])[k - |xs[0]| - 1];
          var c := j[k];
          if c != '.' {
            var t := Concat(xs[1..]);
            var m :| 0 <= m < |t| && t[m] == c;
            assert Concat(xs)[|xs[0]| + m] == c;
          }
        } else if k < |xs[0]| {
          assert Concat(xs)[k] == j[k];
        }
      }
    }
  }

  /**
   * What a variant is: the local part cut into `|ps| + 1` non-empty segments
   * that spell the local part again when the added dots are removed, joined
   * by one dot each. So no added dot is leading, trailing, or next to another
   * added dot.
   */
  lemma DottedShape(u: string, ps: seq<int>)
    requires ValidCuts(ps, |u|)
    ensures Dotted(u, ps) == JoinDots(Segments(u, ps))
    ensures |Segments(u, ps)| == |ps| + 1
    ensures Concat(Segments(u, ps)) == u
    ensures u != "" ==> forall i :: 0 <= i < |Segments(u, ps)| ==> Segments(u, ps)[i] != ""
    ensures |Dotted(u, ps)| == |u| + |ps|
  {
    var segs := Segments(u, ps);
    SegmentsPrefix(u, ps, |ps| + 1);
    assert segs[..|ps| + 1] == segs;
    JoinDotsLength(segs);
    forall i | 0 <= i < |segs| && u != "" ensures segs[i] != "" {
      BoundOrdered(ps, |u|, i, i + 1);
    }
  }

  /** A variant holds the local part's characters and dots, nothing else. */
  lemma DottedChars(u: string, ps: seq<int>)
    requires ValidCuts(ps, |u|)
    ensures forall k :: 0 <= k < |Dotted(u, ps)| ==> Dotted(u, ps)[k] == '.' || Dotted(u, ps)[k] in u
  {
    DottedShape(u, ps);
    JoinDotsChars(Segments(u, ps));
  }

  /**
   * The innermost loop of `generate_domain_names`: dots are inserted from
   * the highest boundary down, so that earlier insertions do not shift the
   * boundaries still to come.
   */
  method InsertDots(username: string, pos: seq<int>) returns (s: string)
    requires ValidCuts(pos, |username|)
    ensures s == Dotted(username, pos)
  {
    ghost var segs := Segments(username, pos);
    ghost var n := |username|;
    s := username;
    var j := |pos|;
    BoundOrdered(pos, n, j, j + 1);
    assert segs[j] == username[Bound(pos, n, j)..Bound(pos, n, j + 1)];
    assert segs[j..] == [segs[j]];
    while j > 0
      invariant 0 <= j <= |pos|
      invariant s == PartlyDotted(username, pos, j)
    {
      var p := pos[j - 1];
      InsertDotStep(username, pos, j);
      s := s[..p] + "." + s[p..];
      j := j - 1;
    }
    assert segs[0..] == segs;
  }

  /** The local part with dots inserted at the boundaries `ps[j..]` only. */
  ghost function PartlyDotted(u: string, ps: seq<int>, j: nat): string
    requires ValidCuts(ps, |u|) && j <= |ps|
  {
    BoundOrdered(ps, |u|, j, |ps| + 1);
    u[..Bound(ps, |u|, j)] + JoinDots(Segments(u, ps)[j..])
  }

  /** Joining from piece `j - 1` on is that piece, a dot, and the join from piece `j` on. */
  lemma JoinDotsFrom(xs: seq<string>, j: nat)
    requires 0 < j < |xs|
    ensures JoinDots(xs[j - 1..]) == xs[j - 1] + "." + JoinDots(xs[j..])
  {
    assert xs[j - 1..][1..] == xs[j..];
  }

  /** The local part up to boundary `j` is the local part up to boundary `j - 1` and segment `j - 1`. */
  lemma SegmentExtends(u: string, ps: seq<int>, j: nat)
    requires ValidCuts(ps, |u|) && 0 < j <= |ps| + 1
    ensures j <= |ps| ==> Bound(ps, |u|, j) == ps[j - 1]
    ensures u[..Bound(ps, |u|, j - 1)] + Segments(u, ps)[j - 1] == u[..Bound(ps, |u|, j)]
  {
    BoundOrdered(ps, |u|, j - 1, j);
    var b, p := Bound(ps, |u|, j - 1), Bound(ps, |u|, j);
    assert Segments(u, ps)[j - 1] == u[b..p];
    assert u[..b] + u[b..p] == u[..p];
  }

  /** One turn of the insertion loop: a dot at `ps[j-1]` extends the dotted suffix by one boundary. */
  lemma InsertDotStep(u: string, ps: seq<int>, j: nat)
    requires ValidCuts(ps, |u|) && 0 < j <= |ps|
    ensures var s, p := PartlyDotted(u, ps, j), ps[j - 1];
      p <= |s| && PartlyDotted(u, ps, j - 1) == s[..p] + "." + s[p..]
  {
    var segs := Segments(u, ps);
    var p := ps[j - 1];
    var tail := JoinDots(segs[j..]);
    SegmentExtends(u, ps, j);
    JoinDotsFrom(segs, j);
    var s := PartlyDotted(u, ps, j);
    assert s == u[..p] + tail;
    assert s[..p] == u[..p] && s[p..] == tail;
    assert PartlyDotted(u, ps, j - 1) == (u[..Bound(ps, |u|, j - 1)] + segs[j - 1]) + "." + tail;
  }

  /** Splitting at the first separator finds a separator-free head. */
  lemma {:induction false} BeforeFirstHead(x: string, sep: char, rest: string)
    requires sep !in x
    ensures BeforeFirst(x + [sep] + rest, sep) == x
  {
    if x != [] {
      assert (x + [sep] + rest)[1..] == x[1..] + [sep] + rest;
      BeforeFirstHead(x[1..], sep, rest);
    }
  }

  /** Splitting a string without the separator gives all of it. */
  lemma {:induction false} BeforeFirstAbsent(x: string, sep: char)
    requires sep !in x
    ensures BeforeFirst(x, sep) == x
  {
    if x != [] {
      BeforeFirstAbsent(x[1..], sep);
    }
  }

  /** In a join of dot-free pieces, the text before the first dot is the first piece. */
  lemma JoinDotsHead(xs: seq<string>)
    requires |xs| >= 1
    requires forall i :: 0 <= i < |xs| ==> '.' !in xs[i]
    ensures BeforeFirst(JoinDots(xs), '.') == xs[0]
    ensures '.' in JoinDots(xs) <==> |xs| > 1
  {
    if |xs| > 1 {
      BeforeFirstHead(xs[0], '.', JoinDots(xs[1..]));
      assert JoinDots(xs)[|xs[0]|] == '.';
    } else {
      BeforeFirstAbsent(xs[0], '.');
    }
  }

  /** Pieces free of dots are recovered from their join: the dots are exactly the separators. */
  lemma {:induction false} JoinDotsInjective(xs: seq<string>, ys: seq<string>)
    requires |xs| >= 1 && |ys| >= 1
    requires forall i :: 0 <= i < |xs| ==> '.' !in xs[i]
    requires forall i :: 0 <= i < |ys| ==> '.' !in ys[i]
    requires JoinDots(xs) == JoinDots(ys)
    ensures xs == ys
  {
    JoinDotsHead(xs);
    JoinDotsHead(ys);
    if |xs| > 1 {
      var s := JoinDots(xs);
      assert JoinDots(xs[1..]) == s[|xs[0]| + 1..] == JoinDots(ys[1..]);
      JoinDotsInjective(xs[1..], ys[1..]);
      assert xs == [xs[0]] + xs[1..] && ys == [ys[0]] + ys[1..];
    }
  }

  /** For a local part without dots of its own, different placements give different variants. */
  lemma DottedInjective(u: string, ps: seq<int>, qs: seq<int>)
    requires '.' !in u
    requires ValidCuts(ps, |u|) && ValidCuts(qs, |u|)
    requires Dotted(u, ps) == Dotted(u, qs)
    ensures ps == qs
  {
    var a, b := Segments(u, ps), Segments(u, qs);
    forall i | 0 <= i < |a| ensures '.' !in a[i] {
      BoundOrdered(ps, |u|, i, i + 1);
    }
    forall i | 0 <= i < |b| ensures '.' !in b[i] {
      BoundOrdered(qs, |u|, i, i + 1);
    }
    JoinDotsInjective(a, b);
    forall i | 0 <= i < |ps| ensures ps[i] == qs[i] {
      SegmentsPrefix(u, ps, i + 1);
      SegmentsPrefix(u, qs, i + 1);
      BoundOrdered(ps, |u|, i + 1, |ps| + 1);
      BoundOrdered(qs, |u|, i + 1, |qs| + 1);
    }
  }

  /** The placements with 1, 2, ..., k dots, each group in `combinations` order. */
  function Placements(n: nat, k: nat): seq<seq<int>> {
    if k == 0 then [] else Placements(n, k - 1) + Combos(1, n, k)
  }

  /** Every placement in the list is valid for a local part of length `n`. */
  predicate AllValidCuts(pss: seq<seq<int>>, n: nat) {
    forall i :: 0 <= i < |pss| ==> ValidCuts(pss[i], n)
  }

  /** Every tuple of `combinations(range(1, n), k)` is a placement of k dots. */
  lemma CombosValidCuts(n: nat, k: nat)
    ensures forall i :: 0 <= i < |Combos(1, n, k)| ==> |Combos(1, n, k)[i]| == k && ValidCuts(Combos(1, n, k)[i], n)
  {
    var c := Combos(1, n, k);
    CombosSound(1, n, k);
    forall i | 0 <= i < |c| ensures |c[i]| == k && ValidCuts(c[i], n) {
      assert c[i] in c;
    }
  }

  /** Every enumerated placement has between 1 and k dots at valid boundaries. */
  lemma {:induction false} PlacementsValid(n: nat, k: nat)
    ensures forall i :: 0 <= i < |Placements(n, k)| ==> 1 <= |Placements(n, k)[i]| <= k && ValidCuts(Placements(n, k)[i], n)
  {
    if k > 0 {
      var p, c := Placements(n, k - 1), Combos(1, n, k);
      PlacementsValid(n, k - 1);
      CombosSound(1, n, k);
      assert Placements(n, k) == p + c;
      forall i | 0 <= i < |p| + |c| ensures 1 <= |(p + c)[i]| <= k && ValidCuts((p + c)[i], n) {
        if i >= |p| {
          assert (p + c)[i] == c[i - |p|] && c[i - |p|] in c;
        }
      }
    }
  }

  lemma AllPlacementsValid(n: nat)
    ensures forall i :: 0 <= i < |AllPlacements(n)| ==> 1 <= |AllPlacements(n)[i]| < n && ValidCuts(AllPlacements(n)[i], n)
  {
    if n > 0 {
      PlacementsValid(n, n - 1);
      assert AllPlacements(n) == Placements(n, n - 1);
    }
  }

  /** Every placement `generate_domain_names` enumerates for a local part of length `n`. */
  function AllPlacements(n: nat): seq<seq<int>> {
    if n == 0 then [] else Placements(n, n - 1)
  }

  /** The variants for a list of placements, in the same order. */
  function Variants(u: string, pss: seq<seq<int>>): (r: seq<string>)
    requires forall i :: 0 <= i < |pss| ==> ValidCuts(pss[i], |u|)
    ensures |r| == |pss|
    ensures forall i :: 0 <= i < |pss| ==> r[i] == Variant(u, pss[i])
  {
    seq(|pss|, i requires 0 <= i < |pss| => Variant(u, pss[i]))
  }

  /** The pool `generate_domain_names` builds: the address itself, then every variant. */
  function GeneratedPool(email: string): (r: seq<string>)
    ensures |r| >= 1 && r[0] == email
  {
    var u := LocalPart(email);
    AllPlacementsValid(|u|);
    [email] + Variants(u, AllPlacements(|u|))
  }

  lemma VariantsAppend(u: string, a: seq<seq<int>>, b: seq<seq<int>>)
    requires forall i :: 0 <= i < |a| ==> ValidCuts(a[i], |u|)
    requires forall i :: 0 <= i < |b| ==> ValidCuts(b[i], |u|)
    ensures Variants(u, a + b) == Variants(u, a) + Variants(u, b)
  {
  }

  /** One turn of the outer generating loop: the variants for `i` dots follow those for fewer. */
  lemma PlacementsStep(u: string, i: nat)
    requires 1 <= i
    ensures AllValidCuts(Placements(|u|, i - 1), |u|)
    ensures AllValidCuts(Placements(|u|, i), |u|)
    ensures AllValidCuts(Combos(1, |u|, i), |u|)
    ensures Variants(u, Placements(|u|, i)) == Variants(u, Placements(|u|, i - 1)) + Variants(u, Combos(1, |u|, i))
  {
    var n := |u|;
    PlacementsValid(n, i);
    PlacementsValid(n, i - 1);
    CombosValidCuts(n, i);
    VariantsAppend(u, Placements(n, i - 1), Combos(1, n, i));
  }

  /** Placements with 1 to k dots number `C(n-1, 1) + ... + C(n-1, k)`. */
  lemma {:induction false} PlacementsCount(n: nat, k: nat)
    requires n >= 1
    ensures |Placements(n, k)| + 1 == BinomSum(n - 1, k)
  {
    if k > 0 {
      PlacementsCount(n, k - 1);
      CombosCount(1, n, k);
    }
  }

  /** A local part of length N >= 1 gives `2^(N-1)` addresses; an empty one gives just the input. */
  lemma PoolCount(email: string)
    ensures |GeneratedPool(email)| == if |LocalPart(email)| == 0 then 1 else Pow2(|LocalPart(email)| - 1)
  {
    var n := |LocalPart(email)|;
    if n > 0 {
      PlacementsCount(n, n - 1);
      BinomRowSum(n - 1);
    }
  }

  /** Every entry after the first is the variant for the matching placement. */
  lemma PoolEntries(email: string)
    ensures |GeneratedPool(email)| == |AllPlacements(|LocalPart(email)|)| + 1
    ensures forall i :: 0 <= i < |AllPlacements(|LocalPart(email)|)| ==>
      && ValidCuts(AllPlacements(|LocalPart(email)|)[i], |LocalPart(email)|)
      && GeneratedPool(email)[i + 1] == Variant(LocalPart(email), AllPlacements(|LocalPart(email)|)[i])
  {
    var u := LocalPart(email);
    var ps := AllPlacements(|u|);
    AllPlacementsValid(|u|);
  }

  /** Placement `a` is enumerated before `b`: fewer dots, or as many and lexicographically smaller. */
  predicate EnumeratedBefore(a: seq<int>, b: seq<int>) {
    |a| < |b| || (|a| == |b| && LexLess(a, b))
  }

  /**
   * The enumeration order: by number of dots, and within one number in
   * lexicographic order of the boundary tuples.
   */
  lemma {:induction false} PlacementsOrdered(n: nat, k: nat)
    ensures forall i, j :: 0 <= i < j < |Placements(n, k)| ==> EnumeratedBefore(Placements(n, k)[i], Placements(n, k)[j])
  {
    if k > 0 {
      var p := Placements(n, k - 1);
      var c := Combos(1, n, k);
      var r := Placements(n, k);
      PlacementsOrdered(n, k - 1);
      PlacementsValid(n, k - 1);
      CombosSorted(1, n, k);
      CombosSound(1, n, k);
      assert r == p + c;
      forall i, j | 0 <= i < j < |r| ensures EnumeratedBefore(r[i], r[j]) {
        if j < |p| {
          assert r[i] == p[i] && r[j] == p[j];
          assert EnumeratedBefore(p[i], p[j]);
        } else if i >= |p| {
          assert r[i] == c[i - |p|] && r[j] == c[j - |p|];
          assert LexLess(c[i - |p|], c[j - |p|]);
          assert c[i - |p|] in c && c[j - |p|] in c;
        } else {
          assert r[i] == p[i];
          assert r[j] == c[j - |p|] && c[j - |p|] in c;
          assert |r[i]| < |r[j]|;
        }
      }
    }
  }

  /** Every non-empty placement of at most k dots is enumerated. */
  lemma {:induction false} PlacementsComplete(n: nat, k: nat, c: seq<int>)
    requires 1 <= |c| <= k && ValidCuts(c, n)
    ensures c in Placements(n, k)
  {
    if |c| == k {
      CombosComplete(1, n, k, c);
    } else {
      PlacementsComplete(n, k - 1, c);
    }
  }

  /** Placements listed in this order never repeat. */
  lemma AllPlacementsDistinct(n: nat)
    ensures forall i, j :: 0 <= i < j < |AllPlacements(n)| ==> AllPlacements(n)[i] != AllPlacements(n)[j]
  {
    if n > 0 {
      PlacementsOrdered(n, n - 1);
      forall a: seq<int> ensures !EnumeratedBefore(a, a) { LexLessIrreflexive(a); }
    }
  }

  /** The local part of a variant is the dotted local part. */
  lemma LocalPartOfVariant(u: string, ps: seq<int>)
    requires '@' !in u && ValidCuts(ps, |u|)
    ensures LocalPart(Variant(u, ps)) == Dotted(u, ps)
  {
    var d := Dotted(u, ps);
    DottedChars(u, ps);
    assert '@' !in d;
    BeforeFirstHead(d, '@', "gmail.com");
    assert Variant(u, ps) == d + ['@'] + "gmail.com";
  }

  /**
   * When the local part has no dots of its own, the pool holds no alias
   * twice: placements never repeat, different placements give different
   * variants, and no variant is the input address.
   */
  lemma PoolDistinct(email: string)
    requires '.' !in LocalPart(email)
    ensures forall i, j :: 0 <= i < j < |GeneratedPool(email)| ==> GeneratedPool(email)[i] != GeneratedPool(email)[j]
  {
    var u := LocalPart(email);
    var ps := AllPlacements(|u|);
    var pool := GeneratedPool(email);
    AllPlacementsDistinct(|u|);
    AllPlacementsValid(|u|);
    PoolEntries(email);
    forall i, j | 0 <= i < j < |pool| ensures pool[i] != pool[j] {
      if i == 0 {
        InputIsNoVariant(email, ps[j - 1]);
      } else {
        VariantsDiffer(u, ps[i - 1], ps[j - 1]);
      }
    }
  }

  /** A variant always has a longer local part than the address it came from. */
  lemma InputIsNoVariant(email: string, ps: seq<int>)
    requires ValidCuts(ps, |LocalPart(email)|) && |ps| >= 1
    ensures email != Variant(LocalPart(email), ps)
  {
    var u := LocalPart(email);
    LocalPartOfVariant(u, ps);
    DottedShape(u, ps);
  }

  /** Different placements in a dot-free local part give different addresses. */
  lemma VariantsDiffer(u: string, a: seq<int>, b: seq<int>)
    requires '.' !in u && '@' !in u
    requires ValidCuts(a, |u|) && ValidCuts(b, |u|) && a != b
    ensures Variant(u, a) != Variant(u, b)
  {
    LocalPartOfVariant(u, a);
    LocalPartOfVariant(u, b);
    if Dotted(u, a) == Dotted(u, b) {
      DottedInjective(u, a, b);
    }
  }

  /** The placements for a local part of three characters, in enumeration order. */
  lemma AllPlacementsOfThree()
    ensures AllPlacements(3) == [[1], [2], [1, 2]]
  {
    assert Combos(3, 3, 1) == [] && Combos(3, 3, 0) == [[]] && Combos(3, 3, 2) == [];
    assert Combos(2, 3, 1) == [[2]] by {
      assert Combos(2, 3, 1) == Prepend(2, [[]]) + [];
      assert Prepend(2, [[]])[0] == [2] + [] == [2];
      assert Prepend(2, [[]]) == [[2]];
    }
    assert Combos(2, 3, 0) == [[]];
    assert Combos(1, 3, 1) == [[1], [2]] by {
      assert Combos(1, 3, 1) == Prepend(1, [[]]) + [[2]];
      assert Prepend(1, [[]])[0] == [1] + [] == [1];
      assert Prepend(1, [[]]) == [[1]];
    }
    assert Combos(2, 3, 2) == [] by {
      assert Combos(2, 3, 2) == Prepend(2, []) + [];
    }
    assert Combos(1, 3, 2) == [[1, 2]] by {
      assert Combos(1, 3, 2) == Prepend(1, [[2]]) + [];
      assert Prepend(1, [[2]])[0] == [1] + [2] == [1, 2];
      assert Prepend(1, [[2]]) == [[1, 2]];
    }
    assert Placements(3, 2) == [[1], [2], [1, 2]];
  }

  /** The pool for a three-character local part: the input, then one dot at each boundary, then both. */
  lemma PoolOfThree(email: string)
    requires |LocalPart(email)| == 3
    ensures ValidCuts([1], 3) && ValidCuts([2], 3)
    ensures |GeneratedPool(email)| == 4
    ensures GeneratedPool(email)[1] == Variant(LocalPart(email), [1])
    ensures GeneratedPool(email)[2] == Variant(LocalPart(email), [2])
    ensures ValidCuts([1, 2], 3) && GeneratedPool(email)[3] == Variant(LocalPart(email), [1, 2])
  {
    AllPlacementsOfThree();
    PoolEntries(email);
  }

  /** Two placements of one dot each, as the variants of a three-character local part use them. */
  lemma DottedOneCut(u: string, p: int)
    requires |u| == 3 && (p == 1 || p == 2)
    ensures ValidCuts([p], 3)
    ensures Dotted(u, [p]) == u[..p] + "." + u[p..]
  {
    assert IsCombination([p][1..], p + 1, 3, 0);
    assert Bound([p], 3, 0) == 0 && Bound([p], 3, 1) == p && Bound([p], 3, 2) == 3;
    var segs := Segments(u, [p]);
    assert segs[0] == u[..p] && segs[1] == u[p..];
    assert JoinDots(segs) == segs[0] + "." + JoinDots(segs[1..]);
  }

  /**
   * A local part that already holds a dot yields the same alias twice: for
   * `a.b@gmail.com`, a dot after the `a` and a dot before the `b` both give
   * `a..b@gmail.com`. Any three-character local part with a dot in the middle does this.
   */
  lemma DottedLocalPartRepeats(email: string)
    requires |LocalPart(email)| == 3 && LocalPart(email)[1] == '.'
    ensures |GeneratedPool(email)| == 4
    ensures GeneratedPool(email)[1] == GeneratedPool(email)[2]
  {
    var u := LocalPart(email);
    PoolOfThree(email);
    var d := [u[0], '.', '.', u[2]];
    assert Dotted(u, [1]) == d by {
      DottedOneCut(u, 1);
      assert u[..1] == [u[0]] && u[1..] == ['.', u[2]];
    }
    assert Dotted(u, [2]) == d by {
      DottedOneCut(u, 2);
      assert u[..2] == [u[0], '.'] && u[2..] == [u[2]];
    }
  }

  /** A variant starts with the first character of the local part. */
  lemma DottedFirst(u: string, ps: seq<int>)
    requires ValidCuts(ps, |u|) && u != ""
    ensures Dotted(u, ps) != "" && Dotted(u, ps)[0] == u[0]
  {
    var segs := Segments(u, ps);
    DottedShape(u, ps);
    assert segs[0] != "";
    assert JoinDots(segs)[0] == segs[0][0];
    assert Concat(segs)[0] == segs[0][0];
  }

  /** A variant of a storable Gmail address is storable too. */
  lemma VariantStorable(email: string, ps: seq<int>)
    requires Storable(email) && ValidCuts(ps, |LocalPart(email)|) && LocalPart(email) != ""
    ensures Storable(Variant(LocalPart(email), ps))
  {
    var u := LocalPart(email);
    var d := Dotted(u, ps);
    var v := Variant(u, ps);
    DottedFirst(u, ps);
    DottedChars(u, ps);
    assert u == email[..|u|];
    assert v[0] == email[0];
    assert v[|v| - 1] == 'm';
    forall k | 0 <= k < |v| ensures v[k] != '\n' {
      if k < |d| {
        assert v[k] == d[k];
        if d[k] != '.' {
          var m :| 0 <= m < |u| && u[m] == d[k];
          assert email[m] == d[k];
        }
      } else {
        assert v[k] == GmailSuffix[k - |d|];
      }
    }
  }

  /**
   * Every alias generated from a storable address survives the pool file:
   * writing the pool and loading it again gives the same list.
   */
  lemma GeneratedPoolRoundTrip(email: string)
    requires Storable(email)
    ensures forall i :: 0 <= i < |GeneratedPool(email)| ==> Storable(GeneratedPool(email)[i])
    ensures LoadGmails(PoolText(GeneratedPool(email))) == GeneratedPool(email)
  {
    var u := LocalPart(email);
    var ps := AllPlacements(|u|);
    var pool := GeneratedPool(email);
    PoolEntries(email);
    AllPlacementsValid(|u|);
    forall i | 0 <= i < |pool| ensures Storable(pool[i]) {
      if i > 0 {
        VariantStorable(email, ps[i - 1]);
      }
    }
    PoolRoundTrip(pool);
  }

  /** Dots at both boundaries of a three-character local part. */
  lemma DottedTwoCuts(u: string)
    requires |u| == 3
    ensures ValidCuts([1, 2], 3)
    ensures Dotted(u, [1, 2]) == [u[0], '.', u[1], '.', u[2]]
  {
    assert IsCombination([1, 2][1..][1..], 3, 3, 0);
    assert IsCombination([1, 2][1..], 2, 3, 1);
    assert Bound([1, 2], 3, 0) == 0 && Bound([1, 2], 3, 1) == 1;
    assert Bound([1, 2], 3, 2) == 2 && Bound([1, 2], 3, 3) == 3;
    var segs := Segments(u, [1, 2]);
    assert |segs| == 3;
    assert segs[0] == u[0..1] == [u[0]];
    assert segs[1] == u[1..2] == [u[1]];
    assert segs[2] == u[2..3] == [u[2]];
    assert JoinDots(segs[1..]) == segs[1] + "." + segs[2] by {
      assert segs[1..][1..] == [segs[2]];
      assert JoinDots(segs[1..][1..]) == segs[2];
    }
    assert JoinDots(segs) == segs[0] + "." + JoinDots(segs[1..]);
  }

  /** The three dotted forms of a three-character local part `xyz`: `x.yz`, `xy.z` and `x.y.z`. */
  lemma DottedOfThree(u: string)
    requires |u| == 3
    ensures ValidCuts([1], 3) && ValidCuts([2], 3) && ValidCuts([1, 2], 3)
    ensures Dotted(u, [1]) == [u[0], '.', u[1], u[2]]
    ensures Dotted(u, [2]) == [u[0], u[1], '.', u[2]]
    ensures Dotted(u, [1, 2]) == [u[0], '.', u[1], '.', u[2]]
  {
    assert Dotted(u, [1]) == [u[0], '.', u[1], u[2]] by {
      DottedOneCut(u, 1);
      assert u[..1] == [u[0]] && u[1..] == [u[1], u[2]];
    }
    assert Dotted(u, [2]) == [u[0], u[1], '.', u[2]] by {
      DottedOneCut(u, 2);
      assert u[..2] == [u[0], u[1]] && u[2..] == [u[2]];
    }
    DottedTwoCuts(u);
  }

  /**
   * The pool for a three-character local part `xyz`, in order: `xyz`,
   * `x.yz`, `xy.z`, `x.y.z`, each followed by the domain.
   */
  lemma PoolOfThreeCharacters(email: string)
    requires |LocalPart(email)| == 3
    ensures var u := LocalPart(email);
      GeneratedPool(email) == [
        email,
        [u[0], '.', u[1], u[2]] + GmailSuffix,
        [u[0], u[1], '.', u[2]] + GmailSuffix,
        [u[0], '.', u[1], '.', u[2]] + GmailSuffix]
  {
    var pool := GeneratedPool(email);
    PoolOfThree(email);
    DottedOfThree(LocalPart(email));
    assert pool == [pool[0], pool[1], pool[2], pool[3]];
  }
}
