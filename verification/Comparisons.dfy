/** What the six comparisons mean on the payloads of values. */
module Comparisons {
  import opened Types
  import opened Values
  import opened Expressions
  import AggregateFolds

  // ---------- Orders ----------

  /** The texts agree on their first `k` characters, and then `a` has the smaller character or none. */
  ghost predicate PrecedesAt(a: string, b: string, k: nat) {
    && k <= |a| && k < |b| && (forall i :: 0 <= i < k ==> a[i] == b[i])
    && (k < |a| ==> a[k] < b[k])
  }

  /** The order of a dictionary. */
  ghost predicate Precedes(a: string, b: string) {
    exists k: nat :: PrecedesAt(a, b, k)
  }

  ghost predicate IntegersRelate(comparison: ComparisonType, a: int, b: int) {
    match comparison
    case Equal => a == b
    case NotEqual => a != b
    case LessThan => a < b
    case LessThanOrEqual => a <= b
    case GreaterThan => a > b
    case GreaterThanOrEqual => a >= b
  }

  ghost predicate TextsRelate(comparison: ComparisonType, a: string, b: string) {
    match comparison
    case Equal => a == b
    case NotEqual => a != b
    case LessThan => Precedes(a, b)
    case LessThanOrEqual => a == b || Precedes(a, b)
    case GreaterThan => Precedes(b, a)
    case GreaterThanOrEqual => a == b || Precedes(b, a)
  }

  lemma {:induction false} TextLessMeans(a: string, b: string)
    ensures TextLess(a, b) <==> Precedes(a, b)
    decreases |a|
  {
    if b == [] {
      assert forall k: nat :: !PrecedesAt(a, b, k);
    } else if a == [] || a[0] < b[0] {
      assert PrecedesAt(a, b, 0);
    } else if a[0] == b[0] {
      TextLessMeans(a[1..], b[1..]);
      if TextLess(a, b) {
        var k: nat :| PrecedesAt(a[1..], b[1..], k);
        assert forall i :: 0 < i <= k ==> a[i] == a[1..][i - 1] && b[i] == b[1..][i - 1];
        assert PrecedesAt(a, b, k + 1);
      }
      if Precedes(a, b) {
        var k: nat :| PrecedesAt(a, b, k);
        assert k > 0 && PrecedesAt(a[1..], b[1..], k - 1);
      }
    } else {
      forall k: nat ensures !PrecedesAt(a, b, k) {
        assert a[0] != b[0];
      }
    }
  }

  // ---------- Comparisons ----------

  /** What a null of a type compares as: the value that its constructor leaves in the fields. */
  function Filled(v: Value): Value {
    match v
    case Null(BOOLEAN) => Boolean(false)
    case Null(INTEGER) => Integer(0)
    case Null(VARCHAR) => Varchar("")
    case _ => v
  }

  /**
   All comparisons, on all values: integers by size, texts by the dictionary, Booleans only for
   being equal or not; values of different types, and those without one, raise an exception.
   */
  lemma CompareMeans(comparison: ComparisonType, a: Value, b: Value)
    ensures Compare(comparison, a, b) ==
            match (Filled(a), Filled(b))
            case (Integer(i), Integer(j)) => Some(Boolean(IntegersRelate(comparison, i, j)))
            case (Varchar(s), Varchar(t)) => Some(Boolean(TextsRelate(comparison, s, t)))
            case (Boolean(p), Boolean(q)) =>
              if comparison == Equal then Some(Boolean(p == q))
              else if comparison == NotEqual then Some(Boolean(p != q))
              else None
            case _ => None
  {
    if a.Type() == VARCHAR && b.Type() == VARCHAR {
      var s, t := a.AsString(), b.AsString();
      TextLessMeans(s, t);
      TextLessMeans(t, s);
      AggregateFolds.TextLessOrder(s, t, s);
      AggregateFolds.TextLessOrder(s, s, s);
    }
  }

  // ---------- A column against a constant ----------

  /** The integer in column `col` of a row. */
  ghost predicate CellIs(row: Row, col: nat, i: int32) {
    col < |row| && Filled(row[col]) == Integer(i)
  }

  /** Comparing an integer column with a constant, on one row. */
  lemma ColumnAgainst(comparison: ComparisonType, tupleIdx: nat, col: nat, k: int32, row: Row, i: int32)
    requires CellIs(row, col, i)
    ensures Evaluate(Comparison(comparison, Column(tupleIdx, col), Constant(Integer(k))), row) == Some(Boolean(IntegersRelate(comparison, i, k)))
  {
    CompareMeans(comparison, row[col], Integer(k));
  }

  /** Comparing an integer column of the left row with one of the right row. */
  lemma ColumnsOfPair(comparison: ComparisonType, c: nat, d: nat, l: Row, r: Row, i: int32, j: int32)
    requires CellIs(l, c, i) && CellIs(r, d, j)
    ensures EvaluateJoin(Comparison(comparison, Column(0, c), Column(1, d)), l, r) == Some(Boolean(IntegersRelate(comparison, i, j)))
    ensures EvaluateJoin(Comparison(comparison, Column(1, d), Column(0, c)), l, r) == Some(Boolean(IntegersRelate(comparison, j, i)))
  {
    CompareMeans(comparison, l[c], r[d]);
    CompareMeans(comparison, r[d], l[c]);
  }

  /** Comparing an integer column of either row of a pair with a constant. */
  lemma ColumnOfPairAgainst(comparison: ComparisonType, tupleIdx: nat, c: nat, k: int32, l: Row, r: Row, i: int32)
    requires CellIs(if tupleIdx == 0 then l else r, c, i)
    ensures EvaluateJoin(Comparison(comparison, Column(tupleIdx, c), Constant(Integer(k))), l, r) == Some(Boolean(IntegersRelate(comparison, i, k)))
  {
    CompareMeans(comparison, (if tupleIdx == 0 then l else r)[c], Integer(k));
  }
}
