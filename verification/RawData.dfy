/** The generator's id ranges: event time grows with the square root of the id, so a load needs few ids. Times are
 * seconds since the history's start; square roots are avoided by comparing squares.
 */
module RawData {

  // -- Products of reals -----------------------------------------------------------------

  function Times(a: real, b: real): real {
    a * b
  }

  function Square(a: real): real {
    Times(a, a)
  }

  lemma TimesMonotone(a: real, b: real, c: real)
    requires a >= 0.0 && b <= c
    ensures Times(a, b) <= Times(a, c)
  {
  }

  lemma TimesStrict(a: real, b: real, c: real)
    requires a > 0.0 && b < c
    ensures Times(a, b) < Times(a, c)
  {
  }

  lemma TimesSwap(a: real, b: real)
    ensures Times(a, b) == Times(b, a)
  {
  }

  lemma TimesRegroup(a: real, b: real, c: real)
    ensures Times(a, Times(b, c)) == Times(b, Times(a, c))
  {
    assert a * (b * c) == b * (a * c);
  }

  lemma SquaresMonotone(a: real, b: real)
    requires 0.0 <= a <= b
    ensures 0.0 <= Square(a) <= Square(b)
  {
    TimesMonotone(a, 0.0, a);
    TimesMonotone(a, a, b);
    TimesMonotone(b, a, b);
    TimesSwap(a, b);
  }

  lemma SquaresApart(a: real, b: real)
    requires 0.0 <= a < b
    ensures Square(a) < Square(b)
  {
    TimesMonotone(a, a, b);
    TimesStrict(b, a, b);
    TimesSwap(a, b);
  }

  // -- The growth curve ------------------------------------------------------------------

  /** `t <= span * sqrt(position / n)`, told by the squares. */
  predicate Reached(t: real, span: real, position: real, n: real) {
    Times(n, Square(t)) <= Times(Square(span), position)
  }

  /** `floor(span * sqrt(position / n))`. */
  predicate EventTime(t: nat, span: nat, position: real, n: nat) {
    Reached(t as real, span as real, position, n as real) && !Reached(t as real + 1.0, span as real, position, n as real)
  }

  /** Where a row is on the curve. */
  function Position(row: nat, u: real): real {
    row as real - 1.0 + u
  }

  function Clamp(x: real): real {
    if x < 0.0 then 0.0 else if x > 1.0 then 1.0 else x
  }

  /** The part of the ids whose event time is before a moment. */
  function Share(moment: real, span: real): real
    requires span > 0.0
  {
    Square(Clamp(moment / span))
  }

  function Ceil(x: real): int {
    -((-x).Floor)
  }

  /** The first and last id that can land in a load of `(after, until]`. */
  function High(until: real, span: nat, n: nat): int
    requires span > 0
  {
    var high := Ceil(Times(n as real, Share(until, span as real))) + 2;
    if n < high then n else high
  }

  function Low(after: real, maxLag: nat, span: nat, n: nat): int
    requires span > 0
  {
    var low := Times(n as real, Share(after - maxLag as real - 2.0, span as real)).Floor - 1;
    if low < 1 then 1 else low
  }

  lemma ShareSquared(moment: real, span: real)
    requires span > 0.0 && 0.0 <= moment <= span
    ensures Times(Square(span), Share(moment, span)) == Square(moment)
  {
    var x := moment / span;
    assert x * span == moment;
    assert 0.0 <= x <= 1.0;
    Interchange(span, x);
  }

  lemma Interchange(s: real, x: real)
    ensures (s * s) * (x * x) == (x * s) * (x * s)
  {
    assert (s * s) * (x * x) == s * (s * (x * x));
    assert s * (x * x) == (x * s) * x;
    assert s * ((x * s) * x) == (x * s) * (x * s);
  }

  lemma FullShare(moment: real, span: real)
    requires span > 0.0 && moment >= span
    ensures Share(moment, span) == 1.0
  {
    assert (moment / span) * span == moment;
    assert moment / span >= 1.0;
  }

  lemma NoShare(moment: real, span: real)
    requires span > 0.0 && moment <= 0.0
    ensures Share(moment, span) == 0.0
  {
    assert (moment / span) * span == moment;
    assert moment / span <= 0.0;
  }

  // -- Moments and positions ---------------------------------------------------------------

  /** A moment not reached is after the position's part of the curve. */
  lemma NotReached(t: real, span: real, position: real, n: real, until: real)
    requires 0.0 <= t <= until <= span && span > 0.0 && n > 0.0 && !Reached(t, span, position, n)
    ensures position < Times(n, Share(until, span))
  {
    var s2, part := Square(span), Times(n, Share(until, span));
    SquaresMonotone(t, until);
    TimesMonotone(n, Square(t), Square(until));
    ShareSquared(until, span);
    TimesRegroup(s2, n, Share(until, span));
    SquaresMonotone(span, span);
    if part <= position { TimesMonotone(s2, part, position); }
  }

  /** A moment reached is before it. */
  lemma HasReached(t: real, span: real, position: real, n: real, from: real)
    requires 0.0 < from < t <= span && span > 0.0 && n > 0.0 && Reached(t, span, position, n)
    ensures Times(n, Share(from, span)) < position
  {
    var s2, part := Square(span), Times(n, Share(from, span));
    SquaresApart(from, t);
    TimesStrict(n, Square(from), Square(t));
    ShareSquared(from, span);
    TimesRegroup(s2, n, Share(from, span));
    SquaresMonotone(span, span);
    if position <= part { TimesMonotone(s2, position, part); }
  }

  /** A position within the curve is reached within the span. */
  lemma WithinTheSpan(t: real, span: real, position: real, n: real)
    requires span > 0.0 && n > 0.0 && position < n && t >= 0.0 && Reached(t, span, position, n)
    ensures t < span
  {
    SquaresApart(0.0, span);
    TimesStrict(Square(span), position, n);
    TimesSwap(Square(span), n);
    if span <= t {
      SquaresMonotone(span, t);
      TimesMonotone(n, Square(span), Square(t));
    }
  }

  // -- One row -----------------------------------------------------------------------------

  /** A row that is in by the end of a load has an id up to the last. */
  lemma NotAboveHigh(t: nat, lag: nat, span: nat, row: nat, u: real, n: nat, until: real)
    requires span > 0 && 1 <= row <= n && 0.0 <= u < 1.0 && EventTime(t, span, Position(row, u), n)
    requires lag >= 1 && (t + lag) as real <= until
    ensures row <= High(until, span, n)
  {
    if until >= span as real {
      FullShare(until, span as real);
    } else {
      NotReached(t as real + 1.0, span as real, Position(row, u), n as real, until);
    }
  }

  /** A row that comes in after a load began has an id from the first on. */
  lemma NotBelowLow(t: nat, lag: nat, maxLag: nat, span: nat, row: nat, u: real, n: nat, after: real)
    requires span > 0 && 1 <= row <= n && 0.0 <= u < 1.0 && EventTime(t, span, Position(row, u), n)
    requires lag <= maxLag && after < (t + lag) as real
    ensures Low(after, maxLag, span, n) <= row
  {
    var from := after - maxLag as real - 2.0;
    if from <= 0.0 {
      NoShare(from, span as real);
    } else {
      WithinTheSpan(t as real, span as real, Position(row, u), n as real);
      HasReached(t as real, span as real, Position(row, u), n as real, from);
    }
  }

  // -- Loads -------------------------------------------------------------------------------

  /** One table: `n` rows, each with its place on the curve, its event time, and the lag it is loaded after. */
  datatype Table = Table(span: nat, n: nat, maxLag: nat, u: nat -> real, time: nat -> nat, lag: nat -> nat)

  ghost predicate Generated(p: Table, row: nat) {
    && 0.0 <= p.u(row) < 1.0 && 1 <= p.lag(row) <= p.maxLag
    && EventTime(p.time(row), p.span, Position(row, p.u(row)), p.n)
  }

  ghost predicate Plan(p: Table) {
    p.span > 0 && p.n > 0 && forall row :: 1 <= row <= p.n ==> Generated(p, row)
  }

  function LoadedAt(p: Table, row: nat): real {
    (p.time(row) + p.lag(row)) as real
  }

  /** The end of the load before, if there was one. */
  datatype After = Never | Since(moment: real)

  predicate InWindow(p: Table, row: nat, after: After, until: real) {
    (after.Since? ==> LoadedAt(p, row) > after.moment) && LoadedAt(p, row) <= until
  }

  /** Every row of a window, whatever its id. */
  function RowsOf(p: Table, after: After, until: real): set<nat> {
    set row | 1 <= row <= p.n && InWindow(p, row, after, until)
  }

  function Ids(p: Table, after: After, until: real): (int, int)
    requires p.span > 0
  {
    var high := High(until, p.span, p.n);
    if after.Never? then (1, if high < 1 then 1 else high)
    else
      var low := Low(after.moment, p.maxLag, p.span, p.n);
      (low, if high < low then low else high)
  }

  /** A row comes in after the end of the load before and by the end of this one. */
  lemma RowsOfAre(p: Table, after: After, until: real, row: nat)
    ensures row in RowsOf(p, after, until)
       <==> && 1 <= row <= p.n && (p.time(row) + p.lag(row)) as real <= until
            && (after == Never || after.moment < (p.time(row) + p.lag(row)) as real)
  {
  }

  lemma NothingIsPruned(p: Table, after: After, until: real, row: nat)
    requires Plan(p) && row in RowsOf(p, after, until)
    ensures Ids(p, after, until).0 <= row <= Ids(p, after, until).1
  {
    assert Generated(p, row);
    NotAboveHigh(p.time(row), p.lag(row), p.span, row, p.u(row), p.n, until);
    if after.Since? {
      NotBelowLow(p.time(row), p.lag(row), p.maxLag, p.span, row, p.u(row), p.n, after.moment);
    }
  }

  lemma IdsAreRows(p: Table, after: After, until: real)
    requires Plan(p)
    ensures 1 <= Ids(p, after, until).0 <= Ids(p, after, until).1 <= p.n
  {
    if after.Since? {
      var share := Share(after.moment - p.maxLag as real - 2.0, p.span as real);
      ShareIsAPart(after.moment - p.maxLag as real - 2.0, p.span as real);
      TimesMonotone(p.n as real, share, 1.0);
      assert Times(p.n as real, share).Floor <= p.n;
    }
  }

  lemma ShareIsAPart(moment: real, span: real)
    requires span > 0.0
    ensures 0.0 <= Share(moment, span) <= 1.0
  {
    SquaresMonotone(Clamp(moment / span), 1.0);
  }

  /** `load_window`: only the ids that can land in the window are made, and those that do are inserted, by id. */
  method LoadWindow(p: Table, after: After, until: real) returns (rows: seq<nat>)
    requires Plan(p)
    ensures forall row :: row in rows <==>
              && 1 <= row <= p.n && (p.time(row) + p.lag(row)) as real <= until
              && (after == Never || after.moment < (p.time(row) + p.lag(row)) as real)
    ensures forall i, j :: 0 <= i < j < |rows| ==> rows[i] < rows[j]
  {
    var (low, high) := Ids(p, after, until);
    IdsAreRows(p, after, until);
    rows := [];
    for row := low to high + 1
      invariant forall r :: r in rows <==> low <= r < row && r in RowsOf(p, after, until)
      invariant forall i :: 0 <= i < |rows| ==> rows[i] < row
      invariant forall i, j :: 0 <= i < j < |rows| ==> rows[i] < rows[j]
    {
      if InWindow(p, row, after, until) {
        rows := rows + [row];
      }
    }
    forall row ensures row in rows <==> row in RowsOf(p, after, until) {
      if row in RowsOf(p, after, until) { NothingIsPruned(p, after, until, row); }
    }
  }

  /** A place before a part of the curve is reached before the moment that part ends. */
  lemma ReachedBefore(t: real, span: real, position: real, n: real, until: real)
    requires 0.0 <= until <= span && span > 0.0 && n > 0.0 && t >= 0.0 && Reached(t, span, position, n)
    requires position < Times(n, Share(until, span))
    ensures t < until
  {
    var s2 := Square(span);
    SquaresApart(0.0, span);
    TimesStrict(s2, position, Times(n, Share(until, span)));
    ShareSquared(until, span);
    TimesRegroup(s2, n, Share(until, span));
    if until <= t {
      SquaresMonotone(until, t);
      TimesMonotone(n, Square(until), Square(t));
    }
  }

  /** A place not before it is reached last no earlier. */
  lemma ReachedAfter(t: real, span: real, position: real, n: real, from: real)
    requires 0.0 <= from <= span && span > 0.0 && n > 0.0 && t >= 0.0 && !Reached(t, span, position, n)
    requires Times(n, Share(from, span)) <= position
    ensures from < t
  {
    var s2 := Square(span);
    SquaresApart(0.0, span);
    TimesMonotone(s2, Times(n, Share(from, span)), position);
    ShareSquared(from, span);
    TimesRegroup(s2, n, Share(from, span));
    if t <= from {
      SquaresMonotone(t, from);
      TimesMonotone(n, Square(t), Square(from));
    }
  }

  /** Few ids are made in vain: all but three at either end have an event time before the window's end, and no more than
    * three seconds over the longest lag before its start. */
  lemma FewIdsAreWasted(p: Table, after: After, until: real, row: nat)
    requires Plan(p) && Ids(p, after, until).0 + 3 <= row <= Ids(p, after, until).1 - 3
    ensures p.time(row) as real < until
    ensures after.Since? ==> after.moment - p.maxLag as real - 3.0 < p.time(row) as real
  {
    IdsAreRows(p, after, until);
    assert Generated(p, row);
    var t, span, position, n := p.time(row) as real, p.span as real, Position(row, p.u(row)), p.n as real;
    WithinTheSpan(t, span, position, n);
    if until <= 0.0 {
      NoShare(until, span);
    } else if until < span {
      ReachedBefore(t, span, position, n, until);
    }
    if after.Since? { NotTooEarly(p, after.moment - p.maxLag as real - 2.0, until, after, row); }
  }

  lemma NotTooEarly(p: Table, from: real, until: real, after: After, row: nat)
    requires p.span > 0 && p.n > 0 && Generated(p, row) && row <= p.n
    requires after.Since? && from == after.moment - p.maxLag as real - 2.0 && Low(after.moment, p.maxLag, p.span, p.n) + 3 <= row
    ensures from < p.time(row) as real + 1.0
  {
    var t, span, position, n := p.time(row) as real, p.span as real, Position(row, p.u(row)), p.n as real;
    assert Times(n, Share(from, span)) <= position;
    if span < from {
      FullShare(from, span);
    } else if 0.0 < from {
      ReachedAfter(t + 1.0, span, position, n, from);
    }
  }

  /** Two loads, one after the other, insert what one load over both windows does, each row once. */
  lemma LoadingInPartsIsLoadingOnce(p: Table, a: After, b: real, c: real)
    requires b <= c && (a.Since? ==> a.moment <= b)
    ensures RowsOf(p, a, b) + RowsOf(p, Since(b), c) == RowsOf(p, a, c)
    ensures RowsOf(p, a, b) !! RowsOf(p, Since(b), c)
  {
  }

  // -- Parents -----------------------------------------------------------------------------

  /** The parents a row may have: as many of theirs as came before its place on the curve, but always the first. */
  function Eligible(row: nat, n: nat, parents: nat): nat
    requires row >= 1 && n > 0
  {
    var before := parents * (row - 1) / n;
    if before < 1 then 1 else before
  }

  /** The parent's place on the curve is not after the row's: `a / parents <= b / n`. */
  predicate NotAfter(a: real, parents: nat, b: real, n: nat) {
    Times(n as real, a) <= Times(parents as real, b)
  }

  /** The parents a row may have are the first, and those whose step on the curve ends no later than the row's begins. */
  lemma EligibleAreThose(row: nat, n: nat, parents: nat, p: nat)
    requires row >= 1 && n > 0 && p >= 1
    ensures p <= Eligible(row, n, parents) <==> p == 1 || NotAfter(p as real, parents, (row - 1) as real, n)
  {
    TimesOfInts(n, p);
    TimesOfInts(parents, row - 1);
    var total := parents * (row - 1);
    if p <= total / n {
      FloorBelow(p, n, total);
    } else {
      PastTheFloor(p, n, total);
    }
  }

  lemma PastTheFloor(p: nat, n: nat, total: nat)
    requires n > 0 && total / n < p
    ensures total < n * p
  {
    assert total == n * (total / n) + total % n;
    OneMore(n, total / n, p);
  }

  lemma OneMore(n: nat, q: int, p: int)
    requires q < p
    ensures n * q + n <= n * p
  {
    assert n * (q + 1) <= n * p;
  }

  ghost predicate ParentsExist(row: nat, n: nat, parents: nat)
    requires row >= 1 && n > 0
  {
    forall p: nat, u: real, v: real :: 1 <= p <= Eligible(row, n, parents) && 0.0 <= u < 1.0 && 0.0 <= v < 1.0
      ==> NotAfter(Position(p, u), parents, Position(row, v), n)
  }

  lemma FloorBelow(p: nat, n: nat, total: nat)
    requires n > 0 && p <= total / n
    ensures n * p <= total
  {
    assert total == n * (total / n) + total % n;
    assert n * p <= n * (total / n) by { assert n * (total / n - p) >= 0; }
  }

  lemma TimesOfInts(a: nat, b: nat)
    ensures Times(a as real, b as real) == (a * b) as real
  {
  }

  lemma EligibleIsNotAfter(row: nat, n: nat, parents: nat, p: nat, u: real, v: real)
    requires row >= 1 && n > 0 && parents * (row - 1) >= n && 1 <= p <= Eligible(row, n, parents)
    requires 0.0 <= u < 1.0 && 0.0 <= v < 1.0
    ensures NotAfter(Position(p, u), parents, Position(row, v), n)
  {
    AtLeastOne(parents * (row - 1), n);
    FloorBelow(p, n, parents * (row - 1));
    TimesMonotone(n as real, Position(p, u), p as real);
    TimesOfInts(n, p);
    TimesOfInts(parents, row - 1);
    TimesMonotone(parents as real, (row - 1) as real, Position(row, v));
  }

  lemma AtLeastOne(total: nat, n: nat)
    requires n > 0 && total >= n
    ensures total / n >= 1
  {
    assert total == n * (total / n) + total % n;
  }

  /** Every parent a row may have was there before it exactly when its place is past the first parent's. */
  lemma ParentsExistExactlyPastTheFirst(row: nat, n: nat, parents: nat)
    requires row >= 1 && n > 0 && parents > 0
    ensures ParentsExist(row, n, parents) <==> parents * (row - 1) >= n
  {
    var before := parents * (row - 1);
    if before >= n {
      forall p: nat, u: real, v: real | 1 <= p <= Eligible(row, n, parents) && 0.0 <= u < 1.0 && 0.0 <= v < 1.0
        ensures NotAfter(Position(p, u), parents, Position(row, v), n)
      {
        EligibleIsNotAfter(row, n, parents, p, u, v);
      }
    } else {
      var u := LateInTheFirst(before, n);
      TimesOfInts(parents, row - 1);
      assert Position(1, u) == u && Position(row, 0.0) == (row - 1) as real;
      assert !NotAfter(Position(1, u), parents, Position(row, 0.0), n);
    }
  }

  lemma LateInTheFirst(before: nat, n: nat) returns (u: real)
    requires n > 0 && before < n
    ensures 0.0 <= u < 1.0 && Times(n as real, u) > before as real
  {
    u := PartOf(before as real + 0.5, n as real);
  }

  lemma PartOf(a: real, n: real) returns (x: real)
    requires 0.0 <= a < n
    ensures 0.0 <= x < 1.0 && Times(n, x) == a
  {
    x := a / n;
    assert Times(n, x) == a;
    if x < 0.0 { TimesStrict(n, x, 0.0); }
    if x >= 1.0 { TimesMonotone(n, 1.0, x); }
  }

  /** A place not after another is reached no later. */
  lemma NotAfterIsNotLater(t: nat, w: nat, span: nat, a: real, parents: nat, b: real, n: nat)
    requires span > 0 && parents > 0 && n > 0 && EventTime(t, span, a, parents) && EventTime(w, span, b, n)
    requires NotAfter(a, parents, b, n)
    ensures t <= w
  {
    var t2, w2, s2, m, k := Square(t as real), Square(w as real + 1.0), Square(span as real), parents as real, n as real;
    SquaresMonotone(span as real, span as real);
    TimesMonotone(k, Times(m, t2), Times(s2, a));
    TimesRegroup(k, s2, a);
    TimesMonotone(s2, Times(k, a), Times(m, b));
    TimesRegroup(s2, m, b);
    TimesStrict(m, Times(s2, b), Times(k, w2));
    TimesRegroup(m, k, w2);
    TimesRegroup(k, m, t2);
    if t > w {
      SquaresMonotone(w as real + 1.0, t as real);
      TimesMonotone(k, w2, t2);
      TimesMonotone(m, Times(k, w2), Times(k, t2));
    }
  }

  // -- Parents by event time ---------------------------------------------------------------

  /** Whatever places the two have within their steps, every parent a row may have has an event time no later than it. */
  ghost predicate ParentsInTime(row: nat, n: nat, parents: nat, span: nat)
    requires row >= 1 && n > 0
  {
    forall p: nat, u: real, v: real, t: nat, w: nat ::
      1 <= p <= Eligible(row, n, parents) && 0.0 <= u < 1.0 && 0.0 <= v < 1.0
      && EventTime(t, span, Position(p, u), parents) && EventTime(w, span, Position(row, v), n)
      ==> t <= w
  }

  /** A second after the row's step begins on the curve, in which the first parent's step has not ended yet. */
  predicate Between(row: nat, n: nat, parents: nat, span: nat, t: nat)
    requires row >= 1
  {
    n * (t * t) > span * span * (row - 1) && parents * (t * t) < span * span
  }

  lemma SquareOfInt(t: nat)
    ensures Square(t as real) == (t * t) as real
  {
    TimesOfInts(t, t);
  }

  lemma InReals(row: nat, n: nat, parents: nat, span: nat, t: nat)
    requires row >= 1
    ensures Between(row, n, parents, span, t) <==>
              && Times(n as real, Square(t as real)) > Times(Square(span as real), (row - 1) as real)
              && Times(parents as real, Square(t as real)) < Square(span as real)
  {
    SquareOfInt(t);
    SquareOfInt(span);
    TimesOfInts(n, t * t);
    TimesOfInts(span * span, row - 1);
    TimesOfInts(parents, t * t);
  }

  lemma SpanSquared(span: nat)
    requires span > 0
    ensures Square(span as real) > 0.0
  {
    SquaresApart(0.0, span as real);
  }

  /** A parent with an event time after the row's shows such a second. */
  lemma LaterIsBetween(row: nat, n: nat, parents: nat, span: nat, u: real, v: real, t: nat, w: nat)
    requires row >= 1 && n > 0 && span > 0 && u < 1.0 && 0.0 <= v && w < t
    requires EventTime(t, span, Position(1, u), parents) && EventTime(w, span, Position(row, v), n)
    ensures Between(row, n, parents, span, t)
  {
    var s2, first := Square(span as real), (row - 1) as real;
    SpanSquared(span);
    SquaresMonotone(w as real + 1.0, t as real);
    TimesMonotone(n as real, Square(w as real + 1.0), Square(t as real));
    TimesMonotone(s2, first, Position(row, v));
    TimesStrict(s2, Position(1, u), 1.0);
    InReals(row, n, parents, span, t);
  }

  /** In such a second the first parent may come. */
  lemma ParentComesIn(parents: nat, span: nat, t: nat) returns (u: real)
    requires parents > 0 && span > 0 && Times(parents as real, Square(t as real)) < Square(span as real)
    ensures 0.0 <= u < 1.0 && EventTime(t, span, Position(1, u), parents)
  {
    SquaresMonotone(0.0, t as real);
    TimesMonotone(parents as real, 0.0, Square(t as real));
    u := PartOf(Times(parents as real, Square(t as real)), Square(span as real));
    SquaresApart(t as real, t as real + 1.0);
    TimesStrict(parents as real, Square(t as real), Square(t as real + 1.0));
    assert Position(1, u) == u;
  }

  /** A place not reached by a second is reached last in one before it. */
  lemma {:induction false} LastReached(t: nat, span: real, position: real, n: real) returns (w: nat)
    requires !Reached(t as real, span, position, n) && position >= 0.0
    ensures w < t && Reached(w as real, span, position, n) && !Reached(w as real + 1.0, span, position, n)
  {
    if t == 0 {
      FromTheStart(span, position, n);
    } else if Reached((t - 1) as real, span, position, n) {
      w := t - 1;
    } else {
      w := LastReached(t - 1, span, position, n);
    }
  }

  lemma FromTheStart(span: real, position: real, n: real)
    requires position >= 0.0
    ensures Reached(0.0, span, position, n)
  {
    assert Square(0.0) == 0.0 && Times(n, 0.0) == 0.0;
    assert Square(span) >= 0.0 by { assert span * span >= 0.0; }
    TimesMonotone(Square(span), 0.0, position);
  }

  /** So such a second shows a parent after the row. */
  lemma BetweenIsLater(row: nat, n: nat, parents: nat, span: nat, t: nat)
    requires row >= 1 && n > 0 && parents > 0 && span > 0 && Between(row, n, parents, span, t)
    ensures !ParentsInTime(row, n, parents, span)
  {
    InReals(row, n, parents, span, t);
    var u := ParentComesIn(parents, span, t);
    var w := LastReached(t, span as real, (row - 1) as real, n as real);
    assert Position(row, 0.0) == (row - 1) as real;
    assert EventTime(w, span, Position(row, 0.0), n);
    assert 1 <= 1 <= Eligible(row, n, parents);
  }

  lemma OnlyTheFirst(row: nat, n: nat, parents: nat)
    requires row >= 1 && n > 0 && parents * (row - 1) < n
    ensures Eligible(row, n, parents) == 1
  {
  }

  /** The theorem: every parent a row may be given was there at the row's event time exactly when the row's place is past
    * the first parent's share of the ids, or no whole second separates the two. */
  lemma ParentsInTimeExactly(row: nat, n: nat, parents: nat, span: nat)
    requires row >= 1 && n > 0 && parents > 0 && span > 0
    ensures ParentsInTime(row, n, parents, span)
            <==> parents * (row - 1) >= n || !exists t: nat :: Between(row, n, parents, span, t)
  {
    if parents * (row - 1) >= n {
      forall p: nat, u: real, v: real, t: nat, w: nat
        | 1 <= p <= Eligible(row, n, parents) && 0.0 <= u < 1.0 && 0.0 <= v < 1.0
          && EventTime(t, span, Position(p, u), parents) && EventTime(w, span, Position(row, v), n)
        ensures t <= w
      {
        EligibleIsNotAfter(row, n, parents, p, u, v);
        NotAfterIsNotLater(t, w, span, Position(p, u), parents, Position(row, v), n);
      }
    } else if t: nat :| Between(row, n, parents, span, t) {
      assert parents * (row - 1) < n;
      BetweenIsLater(row, n, parents, span, t);
    } else {
      OnlyTheFirst(row, n, parents);
      forall p: nat, u: real, v: real, t: nat, w: nat
        | 1 <= p <= Eligible(row, n, parents) && 0.0 <= u < 1.0 && 0.0 <= v < 1.0
          && EventTime(t, span, Position(p, u), parents) && EventTime(w, span, Position(row, v), n)
        ensures t <= w
      {
        if w < t { LaterIsBetween(row, n, parents, span, u, v, t, w); }
      }
    }
  }

  /** So for the first row it fails when the history has a second before the first parent's step ends. */
  lemma FirstRowsParents(n: nat, parents: nat, span: nat)
    requires n > 0 && parents > 0 && span > 0
    ensures ParentsInTime(1, n, parents, span) <==> parents >= span * span
  {
    ParentsInTimeExactly(1, n, parents, span);
    if parents < span * span {
      assert Between(1, n, parents, span, 1);
    } else {
      forall t: nat ensures !Between(1, n, parents, span, t) {
        if t > 0 { AtLeastItself(parents, t * t); }
      }
    }
  }

  lemma AtLeastItself(a: nat, b: nat)
    requires b > 0
    ensures a * b >= a
  {
  }
}
