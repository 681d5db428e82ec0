/** The per-constellation solve loop and the consensus rule of the
    measurement endpoint (the code after its first `return`, which is the
    only statement of the consensus policy). The Parser steps it calls are
    not part of this model: their outcomes for each constellation are given
    as an `Attempt`. Positions are (latitude, longitude, altitude) triples,
    compared by squared Euclidean distance, which orders them as the norm
    does. */
module Consensus {
  import opened Wrappers

  datatype Lla = Lla(lat: real, lon: real, alt: real)

  /** At least four satellites are needed for a position and clock solve. */
  const MIN_SATELLITES: nat := 4

  /** What the Parser steps produced for one constellation: the row counts
      of its epoch, ephemeris and satellite-position tables, the satellites
      flagged as spoofed, and the least-squares fix converted to geodetic
      coordinates, or None when the solve or the conversion raised. */
  datatype Attempt = Attempt(
    epochRows: nat, ephemerisRows: nat, satelliteRows: nat,
    spoofed: seq<string>, solution: Option<Lla>)

  datatype Group<K> = Group(key: K, attempt: Attempt)

  /** An entry of `results`: a constellation's fix and its spoofed satellites. */
  datatype Fix<K> = Fix(key: K, position: Lla, spoofed: seq<string>)

  /** A constellation survives every `continue` of the loop: non-empty epoch
      and ephemeris, non-empty satellite positions, at least four satellites,
      and a solve that did not raise. */
  predicate Usable(a: Attempt) {
    && a.epochRows > 0 && a.ephemerisRows > 0
    && a.satelliteRows > 0
    && a.satelliteRows >= MIN_SATELLITES
    && a.solution.Some?
  }

  function FixOf<K>(g: Group<K>): Fix<K>
    requires g.attempt.solution.Some?
  {
    Fix(g.key, g.attempt.solution.value, g.attempt.spoofed)
  }

  predicate DistinctKeys<K(==)>(groups: seq<Group<K>>) {
    forall i, j | 0 <= i < j < |groups| :: groups[i].key != groups[j].key
  }

  /** The `results` the loop builds, in insertion order. */
  function Gathered<K>(groups: seq<Group<K>>): seq<Fix<K>> {
    if groups == [] then []
    else (if Usable(groups[0].attempt) then [FixOf(groups[0])] else []) + Gathered(groups[1..])
  }

  /** The entries are exactly the usable constellations' fixes. */
  lemma {:induction false} GatheredFixes<K>(groups: seq<Group<K>>)
    ensures |Gathered(groups)| <= |groups|
    ensures forall i | 0 <= i < |groups| && Usable(groups[i].attempt) :: FixOf(groups[i]) in Gathered(groups)
    ensures forall f | f in Gathered(groups) ::
      exists i | 0 <= i < |groups| :: Usable(groups[i].attempt) && f == FixOf(groups[i])
  {
    if groups != [] {
      GatheredFixes(groups[1..]);
      assert forall i | 1 <= i < |groups| :: groups[i] == groups[1..][i - 1];
    }
  }

  /** A constellation that fails a gate (fewer than four satellites, or a
      solve that raised, among others) has no entry; the others are still
      processed. */
  lemma SkippedHasNoFix<K>(groups: seq<Group<K>>, k: nat)
    requires DistinctKeys(groups) && k < |groups|
    requires !Usable(groups[k].attempt)
    ensures forall f | f in Gathered(groups) :: f.key != groups[k].key
  {
    GatheredFixes(groups);
    forall f | f in Gathered(groups) ensures f.key != groups[k].key {
      var i :| 0 <= i < |groups| && Usable(groups[i].attempt) && f == FixOf(groups[i]);
      assert i != k;
    }
  }

  function Positions<K>(fixes: seq<Fix<K>>): (ps: seq<Lla>)
    ensures |ps| == |fixes| && forall i | 0 <= i < |fixes| :: ps[i] == fixes[i].position
  {
    seq(|fixes|, i requires 0 <= i < |fixes| => fixes[i].position)
  }

  /** The loop over the constellations with its `continue`-based skips: it
      fills `results` and `positions` together. The constellations come from
      `unique()`, so each key is visited once and the `results` dict is the
      sequence of its entries. */
  method Gather<K(==)>(groups: seq<Group<K>>) returns (results: seq<Fix<K>>, positions: seq<Lla>)
    requires DistinctKeys(groups)
    ensures results == Gathered(groups)
    ensures positions == Positions(results)
  {
    results, positions := [], [];
    var i := 0;
    while i < |groups|
      invariant 0 <= i <= |groups|
      invariant results + Gathered(groups[i..]) == Gathered(groups)
      invariant positions == Positions(results)
    {
      var a := groups[i].attempt;
      if a.epochRows == 0 || a.ephemerisRows == 0 {
        SkipStep(groups, i, results);
        i := i + 1;
        continue;
      }
      if a.satelliteRows == 0 {
        SkipStep(groups, i, results);
        i := i + 1;
        continue;
      }
      if a.satelliteRows < MIN_SATELLITES {
        SkipStep(groups, i, results);
        i := i + 1;
        continue;
      }
      if a.solution.None? {
        SkipStep(groups, i, results);
        i := i + 1;
        continue;
      }
      var fix := Fix(groups[i].key, a.solution.value, a.spoofed);
      TakeStep(groups, i, results);
      PositionsSnoc(results, fix);
      results := results + [fix];
      positions := positions + [fix.position];
      i := i + 1;
    }
    assert groups[i..] == [];
  }

  lemma PositionsSnoc<K>(fixes: seq<Fix<K>>, f: Fix<K>)
    ensures Positions(fixes + [f]) == Positions(fixes) + [f.position]
  {
  }

  /** A step of the loop past a constellation that fails a gate. */
  lemma SkipStep<K>(groups: seq<Group<K>>, i: nat, results: seq<Fix<K>>)
    requires i < |groups| && !Usable(groups[i].attempt)
    requires results + Gathered(groups[i..]) == Gathered(groups)
    ensures results + Gathered(groups[i + 1..]) == Gathered(groups)
  {
    GatheredFrom(groups, i);
    assert [] + Gathered(groups[i + 1..]) == Gathered(groups[i + 1..]);
  }

  /** A step of the loop that adds a usable constellation's fix. */
  lemma TakeStep<K>(groups: seq<Group<K>>, i: nat, results: seq<Fix<K>>)
    requires i < |groups| && Usable(groups[i].attempt)
    requires results + Gathered(groups[i..]) == Gathered(groups)
    ensures (results + [FixOf(groups[i])]) + Gathered(groups[i + 1..]) == Gathered(groups)
  {
    GatheredFrom(groups, i);
    assert results + ([FixOf(groups[i])] + Gathered(groups[i + 1..]))
      == (results + [FixOf(groups[i])]) + Gathered(groups[i + 1..]);
  }

  lemma GatheredFrom<K>(groups: seq<Group<K>>, i: nat)
    requires i < |groups|
    ensures Gathered(groups[i..]) ==
      (if Usable(groups[i].attempt) then [FixOf(groups[i])] else []) + Gathered(groups[i + 1..])
  {
    assert groups[i..][1..] == groups[i + 1..];
  }

  function Plus(a: Lla, b: Lla): Lla {
    Lla(a.lat + b.lat, a.lon + b.lon, a.alt + b.alt)
  }

  function Sum(ps: seq<Lla>): Lla {
    if ps == [] then Lla(0.0, 0.0, 0.0) else Plus(ps[0], Sum(ps[1..]))
  }

  /** `np.mean(positions, axis=0)`: the coordinate-wise mean. */
  function Mean(ps: seq<Lla>): Lla
    requires ps != []
  {
    var s := Sum(ps);
    var n := |ps| as real;
    Lla(s.lat / n, s.lon / n, s.alt / n)
  }

  /** Coordinate `axis` of a position: 0 latitude, 1 longitude, 2 altitude. */
  function Coord(p: Lla, axis: nat): real {
    if axis == 0 then p.lat else if axis == 1 then p.lon else p.alt
  }

  /** x added to itself n times. */
  function Times(n: nat, x: real): real {
    if n == 0 then 0.0 else x + Times(n - 1, x)
  }

  lemma {:induction false} TimesIsProduct(n: nat, x: real)
    ensures Times(n, x) == n as real * x
  {
    if n > 0 {
      TimesIsProduct(n - 1, x);
      assert n as real * x == (n - 1) as real * x + x;
    }
  }

  lemma {:induction false} SumCoordBounds(ps: seq<Lla>, axis: nat, lo: real, hi: real)
    requires forall i | 0 <= i < |ps| :: lo <= Coord(ps[i], axis) <= hi
    ensures Times(|ps|, lo) <= Coord(Sum(ps), axis) <= Times(|ps|, hi)
  {
    if ps != [] {
      var tail := ps[1..];
      assert forall i | 0 <= i < |tail| :: tail[i] == ps[i + 1];
      SumCoordBounds(tail, axis, lo, hi);
      assert Coord(Sum(ps), axis) == Coord(ps[0], axis) + Coord(Sum(tail), axis);
      assert lo <= Coord(ps[0], axis) <= hi;
    }
  }

  lemma MeanCoordBounds(ps: seq<Lla>, axis: nat, lo: real, hi: real)
    requires ps != []
    requires forall i | 0 <= i < |ps| :: lo <= Coord(ps[i], axis) <= hi
    ensures lo <= Coord(Sum(ps), axis) / |ps| as real <= hi
  {
    SumCoordBounds(ps, axis, lo, hi);
    DivideBounds(|ps|, lo, Coord(Sum(ps), axis), hi);
  }

  lemma DivideBounds(n: nat, lo: real, x: real, hi: real)
    requires n > 0 && Times(n, lo) <= x <= Times(n, hi)
    ensures lo <= x / n as real <= hi
  {
    TimesIsProduct(n, lo);
    TimesIsProduct(n, hi);
    ScaleBounds(n as real, lo, x, hi);
  }

  lemma ScaleBounds(n: real, lo: real, x: real, hi: real)
    requires n > 0.0 && n * lo <= x <= n * hi
    ensures lo <= x / n <= hi
  {
    assert x / n * n == x;
  }

  predicate InBox(p: Lla, lo: Lla, hi: Lla) {
    lo.lat <= p.lat <= hi.lat && lo.lon <= p.lon <= hi.lon && lo.alt <= p.alt <= hi.alt
  }

  /** The mean lies within every coordinate range that holds all the fixes;
      in particular fixes that all agree have that position as their mean. */
  lemma MeanInBox(ps: seq<Lla>, lo: Lla, hi: Lla)
    requires ps != []
    requires forall i | 0 <= i < |ps| :: InBox(ps[i], lo, hi)
    ensures InBox(Mean(ps), lo, hi)
  {
    MeanCoordBounds(ps, 0, lo.lat, hi.lat);
    MeanCoordBounds(ps, 1, lo.lon, hi.lon);
    MeanCoordBounds(ps, 2, lo.alt, hi.alt);
  }

  /** The square of `np.linalg.norm(a - b)`. The norm grows with its square,
      so both pick the same nearest fix. */
  function SqDist(a: Lla, b: Lla): (d: real)
    ensures d >= 0.0
    ensures d == 0.0 <==> a == b
  {
    Norm2Sign(a.lat - b.lat, a.lon - b.lon, a.alt - b.alt);
    Norm2(a.lat - b.lat, a.lon - b.lon, a.alt - b.alt)
  }

  function Square(x: real): real { x * x }

  /** The squared length of the offset (x, y, z). */
  function Norm2(x: real, y: real, z: real): real {
    Square(x) + Square(y) + Square(z)
  }

  /** A squared length is never negative, and zero only for the zero offset. */
  lemma Norm2Sign(x: real, y: real, z: real)
    ensures Norm2(x, y, z) >= 0.0
    ensures Norm2(x, y, z) == 0.0 <==> x == 0.0 && y == 0.0 && z == 0.0
  {
    SquareNonNegative(x);
    SquareNonNegative(y);
    SquareNonNegative(z);
    if x != 0.0 { SquarePositive(x); }
    if y != 0.0 { SquarePositive(y); }
    if z != 0.0 { SquarePositive(z); }
  }

  /** A non-zero number has a positive square: Square(1/x) * Square(x) is
      Square(1), so Square(x) is not zero. */
  lemma SquarePositive(x: real)
    requires x != 0.0
    ensures Square(x) > 0.0
  {
    SquareNonNegative(x);
    SquareScale(1.0 / x, x);
    assert 1.0 / x * x == 1.0;
    assert Square(1.0) == 1.0;
  }

  lemma SquareNonNegative(x: real)
    ensures Square(x) >= 0.0
  {
  }

  lemma SquareScale(k: real, x: real)
    ensures Square(k * x) == Square(k) * Square(x)
  {
  }

  /** `min(results.keys(), key=...)`: the index of the first fix nearest to
      `c`. */
  function Nearest<K>(fixes: seq<Fix<K>>, c: Lla): (k: nat)
    requires fixes != []
    ensures k < |fixes|
    ensures forall j | 0 <= j < |fixes| :: SqDist(fixes[k].position, c) <= SqDist(fixes[j].position, c)
    ensures forall j | 0 <= j < k :: SqDist(fixes[k].position, c) < SqDist(fixes[j].position, c)
  {
    if |fixes| == 1 then 0
    else
      var j := 1 + Nearest(fixes[1..], c);
      assert fixes[j] == fixes[1..][j - 1];
      assert forall i | 1 <= i < |fixes| :: fixes[i] == fixes[1..][i - 1];
      if SqDist(fixes[0].position, c) <= SqDist(fixes[j].position, c) then 0 else j
  }

  /** The published fix: None when no constellation produced one; otherwise
      the first entry of `results` nearest to the mean of all fixes. Its
      position and its spoofed list come from the same entry. */
  function Publish<K>(results: seq<Fix<K>>): (r: Option<Fix<K>>)
    ensures r.None? <==> results == []
    ensures r.Some? ==>
      exists k | 0 <= k < |results| ::
        && r.value == results[k]
        && (forall j | 0 <= j < |results| ::
              SqDist(results[k].position, Mean(Positions(results))) <= SqDist(results[j].position, Mean(Positions(results))))
        && (forall j | 0 <= j < k ::
              SqDist(results[k].position, Mean(Positions(results))) < SqDist(results[j].position, Mean(Positions(results))))
  {
    if results == [] then None
    else
      var k := Nearest(results, Mean(Positions(results)));
      Some(results[k])
  }

  /** The coordinate sums of positions that all equal p. */
  lemma {:induction false} SumConst(ps: seq<Lla>, p: Lla)
    requires forall i | 0 <= i < |ps| :: ps[i] == p
    ensures Sum(ps) == Lla(Times(|ps|, p.lat), Times(|ps|, p.lon), Times(|ps|, p.alt))
  {
    if ps != [] {
      assert forall i | 0 <= i < |ps| - 1 :: ps[1..][i] == ps[i + 1];
      SumConst(ps[1..], p);
    }
  }

  /** The coordinate sums of positions that all equal p except the one at o. */
  lemma {:induction false} SumAgree(ps: seq<Lla>, o: nat, p: Lla)
    requires o < |ps|
    requires forall i | 0 <= i < |ps| && i != o :: ps[i] == p
    ensures var n := |ps| - 1;
      Sum(ps) == Plus(Lla(Times(n, p.lat), Times(n, p.lon), Times(n, p.alt)), ps[o])
  {
    assert forall i | 0 <= i < |ps| - 1 :: ps[1..][i] == ps[i + 1];
    if o == 0 {
      SumConst(ps[1..], p);
    } else {
      SumAgree(ps[1..], o - 1, p);
    }
  }

  /** The mean of positions that all equal p except the one at o. */
  lemma MeanAgree(ps: seq<Lla>, o: nat, p: Lla)
    requires o < |ps|
    requires forall i | 0 <= i < |ps| && i != o :: ps[i] == p
    ensures Mean(ps) == MeanOfOne(|ps|, p, ps[o])
  {
    SumAgree(ps, o, p);
  }

  /** The mean of n - 1 copies of p and one q. */
  function MeanOfOne(n: nat, p: Lla, q: Lla): Lla
    requires n > 0
  {
    Lla((Times(n - 1, p.lat) + q.lat) / n as real,
        (Times(n - 1, p.lon) + q.lon) / n as real,
        (Times(n - 1, p.alt) + q.alt) / n as real)
  }

  /** Along one axis, the mean of n - 1 copies of pc and one qc lies 1/n
      of the gap from pc and (n - 1)/n of it from qc: as far from both for
      n = 2, and strictly farther from a differing qc for n >= 3. */
  lemma AxisGap(n: nat, pc: real, qc: real)
    requires n >= 2
    ensures var cc := (Times(n - 1, pc) + qc) / n as real;
      && Abs(qc - cc) >= Abs(pc - cc)
      && (n == 2 ==> Abs(qc - cc) == Abs(pc - cc))
      && (n >= 3 && qc != pc ==> Abs(qc - cc) > Abs(pc - cc))
  {
    var cc := (Times(n - 1, pc) + qc) / n as real;
    TimesIsProduct(n - 1, pc);
    Offsets(n as real, pc, qc);
    Shares(n as real, qc - pc, pc - cc, qc - cc);
  }

  lemma Offsets(m: real, pc: real, qc: real)
    requires m > 0.0
    ensures pc - ((m - 1.0) * pc + qc) / m == (-1.0 / m) * (qc - pc)
    ensures qc - ((m - 1.0) * pc + qc) / m == ((m - 1.0) / m) * (qc - pc)
  {
    assert ((m - 1.0) * pc + qc) / m == pc + (qc - pc) / m;
  }

  /** A share (m - 1)/m of d is at least as large as the share -1/m of it. */
  lemma Shares(m: real, d: real, x: real, y: real)
    requires m >= 2.0
    requires x == (-1.0 / m) * d && y == ((m - 1.0) / m) * d
    ensures Abs(y) >= Abs(x)
    ensures m == 2.0 ==> Abs(y) == Abs(x)
    ensures m >= 3.0 && d != 0.0 ==> Abs(y) > Abs(x)
  {
    SplitShares(m, d);
    MultipleAtLeast(m, d / m);
    if m == 2.0 {
      SecondHalf(d);
    }
    if m >= 3.0 && d != 0.0 {
      PartNonZero(m, d);
      MultipleBeyond(m, d / m);
    }
  }

  lemma SplitShares(m: real, d: real)
    requires m >= 2.0
    ensures ((m - 1.0) / m) * d == (m - 1.0) * (d / m)
    ensures (-1.0 / m) * d == -(d / m)
  {
  }

  lemma SecondHalf(d: real)
    ensures (2.0 - 1.0) * (d / 2.0) == d / 2.0
  {
  }

  lemma PartNonZero(m: real, d: real)
    requires m >= 2.0 && d != 0.0
    ensures d / m != 0.0
  {
  }

  lemma MultipleAtLeast(m: real, f: real)
    requires m >= 2.0
    ensures Abs((m - 1.0) * f) >= Abs(f)
  {
  }

  lemma MultipleBeyond(m: real, f: real)
    requires m >= 3.0 && f != 0.0
    ensures Abs((m - 1.0) * f) > Abs(f)
  {
  }

  function Abs(x: real): real {
    if x < 0.0 then -x else x
  }

  /** Square grows with the distance from zero. */
  lemma SquareMonotone(x: real, y: real)
    requires Abs(x) >= Abs(y)
    ensures Square(x) >= Square(y)
    ensures Abs(x) > Abs(y) ==> Square(x) > Square(y)
  {
    var a, b := Abs(x), Abs(y);
    if x < 0.0 { SquareMirror(x); }
    if y < 0.0 { SquareMirror(y); }
    SquareGrows(a, b);
  }

  lemma SquareGrows(a: real, b: real)
    requires a >= b >= 0.0
    ensures Square(a) >= Square(b) + (a - b) * (a - b)
    ensures a > b ==> Square(a) > Square(b)
  {
    if a > b { PositiveProduct(a - b); }
  }

  lemma PositiveProduct(e: real)
    requires e > 0.0
    ensures e * e > 0.0
  {
  }

  lemma SquareMirror(x: real)
    ensures Square(-x) == Square(x)
  {
  }

  /** Comparing squared distances to c axis by axis. */
  lemma FartherAlongAxes(q: Lla, p: Lla, c: Lla)
    requires Abs(q.lat - c.lat) >= Abs(p.lat - c.lat)
    requires Abs(q.lon - c.lon) >= Abs(p.lon - c.lon)
    requires Abs(q.alt - c.alt) >= Abs(p.alt - c.alt)
    ensures SqDist(q, c) >= SqDist(p, c)
    ensures
      || Abs(q.lat - c.lat) > Abs(p.lat - c.lat)
      || Abs(q.lon - c.lon) > Abs(p.lon - c.lon)
      || Abs(q.alt - c.alt) > Abs(p.alt - c.alt)
      ==> SqDist(q, c) > SqDist(p, c)
  {
    SquareMonotone(q.lat - c.lat, p.lat - c.lat);
    SquareMonotone(q.lon - c.lon, p.lon - c.lon);
    SquareMonotone(q.alt - c.alt, p.alt - c.alt);
  }

  /** The mean c of n >= 3 points, all p but one q elsewhere, is nearer to
      p than to q. */
  lemma OutlierGeometry(n: nat, p: Lla, q: Lla, c: Lla)
    requires n >= 3 && q != p && c == MeanOfOne(n, p, q)
    ensures SqDist(q, c) > SqDist(p, c)
  {
    AxisGap(n, p.lat, q.lat);
    AxisGap(n, p.lon, q.lon);
    AxisGap(n, p.alt, q.alt);
    FartherAlongAxes(q, p, c);
  }

  /** The mean c of two points is as far from one as from the other. */
  lemma PairGeometry(p: Lla, q: Lla, c: Lla)
    requires c == MeanOfOne(2, p, q)
    ensures SqDist(q, c) == SqDist(p, c)
  {
    AxisGap(2, p.lat, q.lat);
    AxisGap(2, p.lon, q.lon);
    AxisGap(2, p.alt, q.alt);
    FartherAlongAxes(q, p, c);
    FartherAlongAxes(p, q, c);
  }

  /** With at least three positions, all p except the one at o, which is
      elsewhere, that one is strictly farther from the mean than p. */
  lemma OutlierFarther(ps: seq<Lla>, o: nat, p: Lla)
    requires |ps| >= 3 && o < |ps|
    requires forall i | 0 <= i < |ps| && i != o :: ps[i] == p
    requires ps[o] != p
    ensures SqDist(ps[o], Mean(ps)) > SqDist(p, Mean(ps))
  {
    MeanAgree(ps, o, p);
    OutlierGeometry(|ps|, p, ps[o], Mean(ps));
  }

  /** The mean of two positions is equally far from both. */
  lemma TwoEquidistant(ps: seq<Lla>, o: nat, p: Lla)
    requires |ps| == 2 && o < |ps|
    requires forall i | 0 <= i < |ps| && i != o :: ps[i] == p
    ensures SqDist(ps[o], Mean(ps)) == SqDist(p, Mean(ps))
  {
    MeanAgree(ps, o, p);
    PairGeometry(p, ps[o], Mean(ps));
  }

  /** With at least three fixes, all at p except the one at o, which is
      elsewhere, the published fix is at p: the mean is drawn toward the
      agreeing fixes, so the odd one is never nearest to it. */
  lemma PublishOutvotesOutlier<K>(results: seq<Fix<K>>, o: nat, p: Lla)
    requires |results| >= 3 && o < |results|
    requires forall j | 0 <= j < |results| && j != o :: results[j].position == p
    requires results[o].position != p
    ensures Publish(results).Some? && Publish(results).value.position == p
  {
    var m := Mean(Positions(results));
    OutlierFarther(Positions(results), o, p);
    var k := Nearest(results, m);
    if k == o {
      assert false;
    }
  }

  /** Two fixes are equally far from their mean, so the tie goes to the
      first one in `results`. */
  lemma PublishTieFavoursFirst<K>(results: seq<Fix<K>>)
    requires |results| == 2
    ensures Publish(results) == Some(results[0])
  {
    var m := Mean(Positions(results));
    TwoEquidistant(Positions(results), 1, results[0].position);
    var k := Nearest(results, m);
    if k == 1 {
      assert false;
    }
  }

  /** The unreachable tail of the endpoint: gather the fixes, then publish
      the consensus one. A published fix is a usable constellation's own
      fix (so it had at least four satellites). */
  method Resolve<K(==)>(groups: seq<Group<K>>) returns (published: Option<Fix<K>>)
    requires DistinctKeys(groups)
    ensures published == Publish(Gathered(groups))
    ensures published.Some? ==> exists i | 0 <= i < |groups| ::
      && Usable(groups[i].attempt)
      && groups[i].attempt.satelliteRows >= MIN_SATELLITES
      && published.value == FixOf(groups[i])
  {
    var results, positions := Gather(groups);
    if positions == [] {
      return None;
    }
    published := Publish(results);
    GatheredFixes(groups);
    assert published.value in results;
  }
}
