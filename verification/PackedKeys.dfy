/** The packed `long` keys of the space-time planner: `(x << 24) | (y << 12) | t` for search states and
    the five-field key for reserved edges. The bitwise "or" is modelled as it is, not as an addition, so
    that fields wider than 12 bits really overlap. */
module PackedKeys {

  const FIELD := 4096  // one 12-bit field

  function Pow2(k: nat): (p: nat)
    ensures p > 0
  {
    if k == 0 then 1 else 2 * Pow2(k - 1)
  }

  function Shl(x: nat, k: nat): nat {
    if k == 0 then x else 2 * Shl(x, k - 1)
  }

  function BitOr(a: nat, b: nat): nat
    decreases a + b
  {
    if a == 0 then b
    else if b == 0 then a
    else 2 * BitOr(a / 2, b / 2) + (if a % 2 == 1 || b % 2 == 1 then 1 else 0)
  }

  function StateKey(x: nat, y: nat, t: nat): nat {
    BitOr(BitOr(Shl(x, 24), Shl(y, 12)), t)
  }

  function EdgeKey(x1: nat, y1: nat, x2: nat, y2: nat, t: nat): nat {
    BitOr(BitOr(BitOr(BitOr(Shl(x1, 48), Shl(y1, 36)), Shl(x2, 24)), Shl(y2, 12)), t)
  }

  lemma {:induction false} ShlValue(x: nat, k: nat)
    ensures Shl(x, k) == x * Pow2(k)
  {
    if k > 0 {
      ShlValue(x, k - 1);
      Doubled(Pow2(k - 1), x);
    }
  }

  /** "Or" of a value whose low k bits are clear with a k-bit value is their sum. */
  lemma {:induction false} OrOfDisjointBits(a: nat, b: nat, k: nat)
    requires b < Pow2(k)
    ensures BitOr(a * Pow2(k), b) == a * Pow2(k) + b
  {
    if k == 0 || a == 0 || b == 0 {
    } else {
      var p := Pow2(k - 1);
      assert a * Pow2(k) == 2 * (a * p);
      assert (a * Pow2(k)) / 2 == a * p && (a * Pow2(k)) % 2 == 0;
      OrOfDisjointBits(a, b / 2, k - 1);
    }
  }

  lemma Powers()
    ensures Pow2(12) == FIELD
    ensures Pow2(24) == FIELD * FIELD
    ensures Pow2(36) == FIELD * FIELD * FIELD
    ensures Pow2(48) == FIELD * FIELD * FIELD * FIELD
  {
  }

  lemma {:induction false} Pow2Sum(j: nat, k: nat)
    ensures Pow2(j + k) == Pow2(j) * Pow2(k)
  {
    if j > 0 {
      Pow2Sum(j - 1, k);
      Doubled(Pow2(j - 1), Pow2(k));
    }
  }

  lemma Doubled(a: nat, b: nat)
    ensures 2 * (a * b) == (2 * a) * b
  {
  }

  lemma FieldArithmetic(a: nat, b: nat, p: nat)
    requires p > 0
    ensures a * (FIELD * p) + b * p == (a * FIELD + b) * p
    ensures b < FIELD ==> b * p < FIELD * p
  {
    if b < FIELD {
      assert (FIELD - b) * p > 0;
    }
  }

  /** "Or"-ing a 12-bit field in below the fields already packed. */
  lemma AppendField(a: nat, b: nat, k: nat)
    requires b < FIELD
    ensures BitOr(Shl(a, k + 12), Shl(b, k)) == Shl(a * FIELD + b, k)
  {
    assert Pow2(k + 12) == FIELD * Pow2(k) by {
      Powers();
      Pow2Sum(12, k);
    }
    FieldArithmetic(a, b, Pow2(k));
    OrOfDisjointBits(a, b * Pow2(k), k + 12);
    ShlValue(a, k + 12);
    ShlValue(b, k);
    ShlValue(a * FIELD + b, k);
  }

  lemma StateKeyValue(x: nat, y: nat, t: nat)
    requires y < FIELD && t < FIELD
    ensures StateKey(x, y, t) == (x * FIELD + y) * FIELD + t
  {
    AppendField(x, y, 12);
    AppendField(x * FIELD + y, t, 0);
    Powers();
  }

  lemma EdgeKeyValue(x1: nat, y1: nat, x2: nat, y2: nat, t: nat)
    requires y1 < FIELD && x2 < FIELD && y2 < FIELD && t < FIELD
    ensures EdgeKey(x1, y1, x2, y2, t) == (((x1 * FIELD + y1) * FIELD + x2) * FIELD + y2) * FIELD + t
  {
    PackFive(x1, y1, x2, y2, t, 12);
  }

  lemma PackFive(x1: nat, y1: nat, x2: nat, y2: nat, t: nat, k: nat)
    requires y1 < FIELD && x2 < FIELD && y2 < FIELD && t < FIELD && k == 12
    ensures BitOr(BitOr(BitOr(BitOr(Shl(x1, k + 36), Shl(y1, k + 24)), Shl(x2, k + 12)), Shl(y2, k)), t)
            == (((x1 * FIELD + y1) * FIELD + x2) * FIELD + y2) * FIELD + t
  {
    var f1 := x1 * FIELD + y1;
    var f2 := f1 * FIELD + x2;
    var f3 := f2 * FIELD + y2;
    AppendField(x1, y1, k + 24);
    AppendField(f1, x2, k + 12);
    AppendField(f2, y2, k);
    AppendField(f3, t, k - 12);
  }

  /** No two search states of a grid share a key. The start cell may lie right of the grid, so x is free. */
  ghost predicate StateKeysInjective(rows: nat, horizon: nat) {
    forall x: nat, y: nat, t: nat, x': nat, y': nat, t': nat ::
      y < rows && y' < rows && t < horizon && t' < horizon && StateKey(x, y, t) == StateKey(x', y', t')
      ==> x == x' && y == y' && t == t'
  }

  /** How many ticks the bits below x can tell apart: with one row the row's field is free for them too. */
  function TickRange(rows: nat): nat {
    if rows == 1 then FIELD * FIELD else FIELD
  }

  /** How many rows they can tell apart. */
  function RowRange(rows: nat): nat {
    if rows == 1 then 1 else FIELD
  }

  /** With `HORIZON_TICKS = cols + rows + 4`, the state keys of a grid are unique exactly when the horizon fits the
      bits left to it. */
  lemma StateKeysInjectiveIff(cols: nat, rows: nat)
    ensures StateKeysInjective(rows, cols + rows + 4) <==> rows == 0 || cols + rows + 4 <= TickRange(rows)
  {
    var horizon := cols + rows + 4;
    if rows == 0 || horizon <= TickRange(rows) {
      forall x: nat, y: nat, t: nat, x': nat, y': nat, t': nat |
        y < rows && y' < rows && t < horizon && t' < horizon && StateKey(x, y, t) == StateKey(x', y', t')
        ensures x == x' && y == y' && t == t'
      {
        KeysUniqueIn(rows, x, y, t, x', y', t');
      }
    } else if rows == 1 {
      // Tick 2^24 of column 0 looks like tick 0 of column 1.
      RowKeyValue(1, 0);
      Powers();
      assert StateKey(0, 0, FIELD * FIELD) == StateKey(1, 0, 0) by {
        ShlValue(0, 24);
        ShlValue(0, 12);
      }
    } else {
      // Tick 4096 of row 0 looks like tick 0 of row 1.
      Powers();
      ShlValue(0, 24);
      ShlValue(0, 12);
      ShlValue(1, 12);
      assert StateKey(0, 0, FIELD) == StateKey(0, 1, 0);
    }
  }

  lemma RowKeyValue(x: nat, t: nat)
    requires t < FIELD * FIELD
    ensures StateKey(x, 0, t) == x * (FIELD * FIELD) + t
  {
    Powers();
    ShlValue(x, 24);
    ShlValue(0, 12);
    OrOfDisjointBits(x, t, 24);
  }

  lemma RowKeyUnique(x: nat, t: nat, x': nat, t': nat)
    requires t < FIELD * FIELD && t' < FIELD * FIELD
    ensures StateKey(x, 0, t) == StateKey(x', 0, t') <==> x == x' && t == t'
  {
    RowKeyValue(x, t);
    RowKeyValue(x', t');
  }

  lemma StateKeyUnique(x: nat, y: nat, t: nat, x': nat, y': nat, t': nat)
    requires y < FIELD && t < FIELD && y' < FIELD && t' < FIELD
    ensures StateKey(x, y, t) == StateKey(x', y', t') <==> (x == x' && y == y' && t == t')
  {
    StateKeyValue(x, y, t);
    StateKeyValue(x', y', t');
    if StateKey(x, y, t) == StateKey(x', y', t') {
      TopFieldUnique(x * FIELD + y, t, x' * FIELD + y', t');
      TopFieldUnique(x, y, x', y');
    }
  }

  lemma TopFieldUnique(a: nat, b: nat, a': nat, b': nat)
    requires b < FIELD && b' < FIELD && a * FIELD + b == a' * FIELD + b'
    ensures a == a' && b == b'
  {
  }

  /** Below 4096 an edge key names one directed edge at one departure time. */
  lemma EdgeKeyUnique(x1: nat, y1: nat, x2: nat, y2: nat, t: nat, x1': nat, y1': nat, x2': nat, y2': nat, t': nat)
    requires y1 < FIELD && x2 < FIELD && y2 < FIELD && t < FIELD
    requires y1' < FIELD && x2' < FIELD && y2' < FIELD && t' < FIELD
    ensures EdgeKey(x1, y1, x2, y2, t) == EdgeKey(x1', y1', x2', y2', t')
            <==> (x1 == x1' && y1 == y1' && x2 == x2' && y2 == y2' && t == t')
  {
    EdgeKeyValue(x1, y1, x2, y2, t);
    EdgeKeyValue(x1', y1', x2', y2', t');
    if EdgeKey(x1, y1, x2, y2, t) == EdgeKey(x1', y1', x2', y2', t') {
      var a := x1 * FIELD + y1;
      var a' := x1' * FIELD + y1';
      TopFieldUnique((a * FIELD + x2) * FIELD + y2, t, (a' * FIELD + x2') * FIELD + y2', t');
      TopFieldUnique(a * FIELD + x2, y2, a' * FIELD + x2', y2');
      TopFieldUnique(a, x2, a', x2');
      TopFieldUnique(x1, y1, x1', y1');
    }
  }

  /** In these ranges, state keys are unique. */
  lemma KeysUniqueIn(rows: nat, x: nat, y: nat, t: nat, x': nat, y': nat, t': nat)
    requires y < RowRange(rows) && y' < RowRange(rows) && t < TickRange(rows) && t' < TickRange(rows)
    ensures StateKey(x, y, t) == StateKey(x', y', t') <==> (x == x' && y == y' && t == t')
  {
    if rows == 1 {
      RowKeyUnique(x, t, x', t');
    } else {
      StateKeyUnique(x, y, t, x', y', t');
    }
  }
}
