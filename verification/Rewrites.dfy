/** The optimizer preserves what a plan computes. */
module Rewrites {
  import opened Types
  import opened Values
  import opened Expressions
  import opened Joins
  import opened Plans
  import opened Bags
  import opened Collections
  import opened Operators
  import opened OperatorBags

  /** The optimizer replaces the join at the root of the plan. */
  predicate Rewritten(plan: Plan) {
    plan.operator.NestedLoop? && JoinColumns(plan.operator.condition).Some? && |plan.children| == 2
  }

  /** The inputs of a rewritten join run, its key columns exist in every row, and no null among them clashes with a value. */
  ghost predicate JoinSafe(db: Database, plan: Plan) {
    Rewritten(plan) ==>
      var columns := JoinColumns(plan.operator.condition).value;
      var left, right := Run(db, plan.children[0]), Run(db, plan.children[1]);
      && left.Some? && right.Some?
      && KeysDefined(left.value, Column(0, columns.0)) && KeysDefined(right.value, Column(0, columns.1))
      && NoClash(left.value, right.value, columns.0, columns.1)
  }

  /** The plan or its rewriting runs this child: a nested loop without left rows does not run its right one. */
  ghost predicate Needed(db: Database, plan: Plan, i: nat)
    requires i < |plan.children|
  {
    i == 1 && plan.operator.NestedLoop? && !Rewritten(plan) ==> Run(db, plan.children[0]) != Some([])
  }

  /** The plan and the parts of it that are needed run without an exception, and its joins are safe to rewrite. */
  ghost predicate Safe(db: Database, plan: Plan) {
    && Run(db, plan).Some?
    && JoinSafe(db, plan)
    && forall i :: 0 <= i < |plan.children| && Needed(db, plan, i) ==> Safe(db, plan.children[i])
  }

  lemma RunOfJoin(db: Database, plan: Plan)
    requires |plan.children| == 2
    ensures var left, right := Run(db, plan.children[0]), Run(db, plan.children[1]);
            && (plan.operator.NestedLoop? ==> Run(db, plan) == RunNested(left, right, plan.operator.condition))
            && (plan.operator.Hash? ==> Run(db, plan) == RunHash(left, right, plan.operator.leftKey, plan.operator.rightKey))
  {
  }

  lemma JoinRewrite(left: seq<Row>, right: seq<Row>, condition: Option<Expr>, i: nat, j: nat)
    requires RunNested(Some(left), Some(right), condition).Some? && condition.Some? && IsColumnEquality(condition.value, i, j)
    requires KeysDefined(left, Column(0, i)) && KeysDefined(right, Column(0, j)) && NoClash(left, right, i, j)
    ensures RunHash(Some(left), Some(right), Column(0, i), Column(0, j)) == RunNested(Some(left), Some(right), condition)
  {
    hide NoClash, KeysDefined;
    JoinsAgree(condition.value, left, right, i, j);
  }

  /** Replacing a nested-loop join by a hash join keeps its rows and their order. */
  lemma HashRewrite(db: Database, plan: Plan)
    requires Run(db, plan).Some? && JoinSafe(db, plan)
    ensures Run(db, NestedLoopToHash(plan)) == Run(db, plan)
  {
    hide Run, RunNested, RunHash, NoClash, KeysDefined, JoinColumns, IsColumnEquality;
    if Rewritten(plan) {
      var columns := JoinColumns(plan.operator.condition).value;
      var left, right := Run(db, plan.children[0]), Run(db, plan.children[1]);
      RunOfJoin(db, plan);
      RunOfJoin(db, NestedLoopToHash(plan));
      JoinRewrite(left.value, right.value, plan.operator.condition, columns.0, columns.1);
    } else {
      NotRewritten(db, plan);
    }
  }

  lemma NotRewritten(db: Database, plan: Plan)
    requires !Rewritten(plan) && Run(db, plan).Some?
    ensures NestedLoopToHash(plan) == plan
  {
  }

  /** It does so exactly when the join is safe. */
  lemma HashRewriteExactly(db: Database, plan: Plan)
    requires Run(db, plan).Some? && Rewritten(plan) && SameWidth(Run(db, plan.children[0]).value)
    ensures Run(db, NestedLoopToHash(plan)) == Run(db, plan) <==> JoinSafe(db, plan)
  {
    var columns := JoinColumns(plan.operator.condition).value;
    var left, right := Run(db, plan.children[0]), Run(db, plan.children[1]);
    var keys := (Column(0, columns.0), Column(0, columns.1));
    var plan' := NestedLoopToHash(plan);
    assert plan'.operator == Hash(keys.0, keys.1) && plan'.children == plan.children;
    if right.Some? && KeysDefined(left.value, keys.0) && KeysDefined(right.value, keys.1) {
      assert Run(db, plan') == Some(Hashed(left.value, right.value, keys.0, keys.1));
      assert Run(db, plan) == Some(Nested(left.value, right.value, plan.operator.condition));
      JoinsAgreeExactly(plan.operator.condition.value, left.value, right.value, columns.0, columns.1);
    }
  }

  /** A node over children that yield the same rows, as far as they are needed, yields the same rows. */
  lemma SameChildren(db: Database, plan: Plan, children: seq<Plan>)
    requires |children| == |plan.children|
    requires forall i :: 0 <= i < |children| && Needed(db, plan, i) ==> Run(db, children[i]) == Run(db, plan.children[i])
    ensures Run(db, Plan(plan.operator, children)) == Run(db, plan)
    ensures JoinSafe(db, plan) ==> JoinSafe(db, Plan(plan.operator, children))
  {
    assert |children| > 0 ==> Needed(db, plan, 0);
  }

  /** Without a catalog, the optimized plan yields the rows of the plan, in the same order. */
  lemma {:induction false} OptimizePreservesRows(db: Database, plan: Plan)
    requires Safe(db, plan)
    ensures Run(db, Optimized(None, plan)) == Run(db, plan)
    decreases plan
  {
    var children := seq(|plan.children|, i requires 0 <= i < |plan.children| => Optimized(None, plan.children[i]));
    forall i | 0 <= i < |children| && Needed(db, plan, i) ensures Run(db, children[i]) == Run(db, plan.children[i]) {
      OptimizePreservesRows(db, plan.children[i]);
    }
    SameChildren(db, plan, children);
    HashRewrite(db, Plan(plan.operator, children));
  }

  // ---------- With indexes ----------

  /** Every index that answers lookups agrees with its table, and its id finds it. */
  ghost predicate IndexesAgree(db: Database) {
    forall table, index :: table in db && index in db[table].indexes && index.pointLookup ==>
      IndexAgrees(index, db[table].rows) && FindIndex(db[table].indexes, index.oid) == Some(index)
  }

  /** A scan that becomes an index scan compares with an integer; over a table with rows it does so anyway. */
  ghost predicate ConstantFits(db: Database, plan: Plan) {
    plan.operator.SeqScan? && SeqScanToIndexScan(Some(db), plan) != plan && db[plan.operator.table].rows == [] ==>
      PointLookup(plan.operator.condition).value.1.value.Type() == INTEGER
  }

  /** A node whose rows keep their order when the plan is optimized. */
  ghost predicate OrderFixed(db: Database, plan: Plan) {
    || (Run(db, plan).Some? && AllSame(Run(db, plan).value))
    || match plan.operator
       case SeqScan(_, _) => SeqScanToIndexScan(Some(db), plan) == plan
       case IndexScan(_, _, _, _) => true
       case Sort(orderBys) =>
         |plan.children| == 1 &&
         (OrderFixed(db, plan.children[0]) ||
          (Run(db, plan.children[0]).Some? && TiesEqual(orderBys, Run(db, plan.children[0]).value)))
       case _ => forall i :: 0 <= i < |plan.children| && Needed(db, plan, i) ==> OrderFixed(db, plan.children[i])
  }

  /** The same bag, and the same rows where the order is fixed. */
  ghost predicate Alike(db: Database, plan: Plan, plan': Plan) {
    && SameRows(Run(db, plan), Run(db, plan'))
    && (OrderFixed(db, plan) ==> Run(db, plan') == Run(db, plan))
  }

  /** A node that is given its rows in an order that stays, or does not depend on their order. */
  ghost predicate OrderFree(db: Database, plan: Plan) {
    |plan.children| == 1 && Run(db, plan.children[0]).Some? ==>
      var rows := Run(db, plan.children[0]).value;
      match plan.operator
      case Limit(count) => LimitFree(count, rows) || OrderFixed(db, plan.children[0])
      case Aggregation(groupBys, aggregates) => GroupsSafe(groupBys, aggregates, rows) || OrderFixed(db, plan.children[0])
      case _ => true
  }

  /** All parts that are needed are insensitive to the order in which an index lists rows. */
  ghost predicate BagSafe(db: Database, plan: Plan) {
    && ConstantFits(db, plan)
    && OrderFree(db, plan)
    && forall i :: 0 <= i < |plan.children| && Needed(db, plan, i) ==> BagSafe(db, plan.children[i])
  }

  /** A scan that an index answers yields the same bag exactly when its constant fits. */
  lemma IndexRewriteExactly(db: Database, plan: Plan)
    requires IndexesAgree(db) && Run(db, plan).Some? && plan.operator.SeqScan?
    ensures SameRows(Run(db, plan), Run(db, SeqScanToIndexScan(Some(db), plan))) <==> ConstantFits(db, plan)
  {
    var plan' := SeqScanToIndexScan(Some(db), plan);
    if plan' != plan {
      var table, condition := db[plan.operator.table], plan.operator.condition;
      var lookup := PointLookup(condition).value;
      var index := UsableIndex(table.indexes, lookup.0).value;
      if table.rows != [] {
        assert HasKey(table.rows[0].row, lookup.0) && IsVerdict(Evaluate(condition.value, table.rows[0].row));
        PointTyped(condition, lookup.0, lookup.1.value, table.rows[0].row);
      }
      if lookup.1.value.Type() == INTEGER {
        IndexScanBag(index, table.rows, condition, lookup.1.value);
      }
    }
  }

  lemma PointTyped(condition: Option<Expr>, col: nat, v: Value, row: Row)
    requires PointLookup(condition) == Some((col, Constant(v))) && HasKey(row, col)
    requires IsVerdict(Evaluate(condition.value, row))
    ensures v.Type() == INTEGER
  {
    var e := condition.value;
    assert Evaluate(e.left, row) == (if e.left.Column? then Some(row[col]) else Some(v));
    assert Evaluate(e.right, row) == (if e.right.Column? then Some(row[col]) else Some(v));
  }

  // ---------- One node over reordered inputs ----------

  ghost predicate AlikeChildren(db: Database, plan: Plan, children: seq<Plan>) {
    && |children| == |plan.children|
    && forall i :: 0 <= i < |children| && Needed(db, plan, i) ==> Alike(db, plan.children[i], children[i])
  }

  lemma NestedAlike(db: Database, plan: Plan, children: seq<Plan>)
    requires plan.operator.NestedLoop? && Run(db, plan).Some? && AlikeChildren(db, plan, children)
    ensures SameRows(Run(db, plan), Run(db, Plan(plan.operator, children)))
    ensures JoinSafe(db, plan) ==> JoinSafe(db, Plan(plan.operator, children))
  {
    assert Needed(db, plan, 0);
    var a, b := Run(db, plan.children[0]).value, Run(db, children[0]).value;
    SameSize(a, b);
    if Needed(db, plan, 1) {
      var c, d := Run(db, plan.children[1]).value, Run(db, children[1]).value;
      if a != [] {
        JoinDefinedBag(a, b, c, d, plan.operator.condition);
        NestedBag(a, b, c, d, plan.operator.condition);
      }
      if JoinSafe(db, plan) && Rewritten(plan) {
        var columns := JoinColumns(plan.operator.condition).value;
        KeysDefinedBag(a, b, Column(0, columns.0));
        KeysDefinedBag(c, d, Column(0, columns.1));
        NoClashBag(a, b, c, d, columns.0, columns.1);
      }
    }
  }

  lemma NoClashBag(a: seq<Row>, b: seq<Row>, c: seq<Row>, d: seq<Row>, i: nat, j: nat)
    requires SameBag(a, b) && SameBag(c, d) && NoClash(a, c, i, j)
    ensures NoClash(b, d, i, j)
  {
    forall l, r | l in b && r in d ensures !PairClash(l, r, i, j) {
      SameMembers(a, b, l);
      SameMembers(c, d, r);
    }
  }

  lemma HashAlike(db: Database, plan: Plan, children: seq<Plan>)
    requires plan.operator.Hash? && Run(db, plan).Some? && AlikeChildren(db, plan, children)
    ensures SameRows(Run(db, plan), Run(db, Plan(plan.operator, children)))
  {
    assert Needed(db, plan, 0) && Needed(db, plan, 1);
    HashedBag(Run(db, plan.children[0]).value, Run(db, children[0]).value,
              Run(db, plan.children[1]).value, Run(db, children[1]).value, plan.operator.leftKey, plan.operator.rightKey);
  }

  lemma AppliedAlike(db: Database, plan: Plan, children: seq<Plan>)
    requires plan.operator.Projection? || plan.operator.Sort? || plan.operator.Aggregation? || plan.operator.Limit?
    requires Run(db, plan).Some? && OrderFree(db, plan) && AlikeChildren(db, plan, children)
    ensures SameRows(Run(db, plan), Run(db, Plan(plan.operator, children)))
    ensures plan.operator.Sort? && TiesEqual(plan.operator.orderBys, Run(db, plan.children[0]).value) ==>
              Run(db, Plan(plan.operator, children)) == Run(db, plan)
  {
    assert Needed(db, plan, 0);
    var a, b := Run(db, plan.children[0]).value, Run(db, children[0]).value;
    if Run(db, children[0]) != Run(db, plan.children[0]) {
      match plan.operator
      case Projection(exprs) => ProjectedBag(exprs, a, b);
      case Sort(orderBys) =>
        SortedBag(orderBys, a, b);
        if TiesEqual(orderBys, a) {
          SortedFixed(orderBys, a, b);
        }
      case Aggregation(groupBys, aggregates) => AggregatedBag(groupBys, aggregates, a, b);
      case Limit(count) => LimitedBag(count, a, b);
      case _ =>
    }
  }

  /** A node over children that are alike yields the same bag, */
  lemma NodeAlike(db: Database, plan: Plan, children: seq<Plan>)
    requires Run(db, plan).Some? && OrderFree(db, plan) && AlikeChildren(db, plan, children)
    ensures SameRows(Run(db, plan), Run(db, Plan(plan.operator, children)))
    ensures JoinSafe(db, plan) ==> JoinSafe(db, Plan(plan.operator, children))
  {
    match plan.operator
    case SeqScan(_, _) =>
    case IndexScan(_, _, _, _) =>
    case NestedLoop(_) => NestedAlike(db, plan, children);
    case Hash(_, _) => HashAlike(db, plan, children);
    case _ => AppliedAlike(db, plan, children);
  }

  /** and where its order is fixed, the same rows. */
  lemma NodeFixed(db: Database, plan: Plan, children: seq<Plan>)
    requires Run(db, plan).Some? && OrderFree(db, plan) && AlikeChildren(db, plan, children) && OrderFixed(db, plan)
    ensures Run(db, Plan(plan.operator, children)) == Run(db, plan)
  {
    var node := Plan(plan.operator, children);
    NodeAlike(db, plan, children);
    if AllSame(Run(db, plan).value) {
      SameOrder(Run(db, plan).value, Run(db, node).value);
    } else if plan.operator.Sort? {
      AppliedAlike(db, plan, children);
      SortFixed(db, plan, children);
    } else if !plan.operator.SeqScan? && !plan.operator.IndexScan? {
      FixedChildren(db, plan, children);
      SameChildren(db, plan, children);
    }
  }

  lemma SortFixed(db: Database, plan: Plan, children: seq<Plan>)
    requires Run(db, plan).Some? && plan.operator.Sort? && AlikeChildren(db, plan, children)
    requires OrderFixed(db, plan) && !AllSame(Run(db, plan).value)
    ensures TiesEqual(plan.operator.orderBys, Run(db, plan.children[0]).value) || Run(db, Plan(plan.operator, children)) == Run(db, plan)
  {
    assert Needed(db, plan, 0);
  }

  lemma FixedChildren(db: Database, plan: Plan, children: seq<Plan>)
    requires Run(db, plan).Some? && AlikeChildren(db, plan, children) && OrderFixed(db, plan) && !AllSame(Run(db, plan).value)
    requires !plan.operator.SeqScan? && !plan.operator.IndexScan? && !plan.operator.Sort?
    ensures forall i :: 0 <= i < |children| && Needed(db, plan, i) ==> Run(db, children[i]) == Run(db, plan.children[i])
  {
    hide Run, SameRows, Needed, AllSame;
  }

  /** With indexes that agree, the optimized plan yields the same bag, and where its order is fixed the same rows. */
  lemma {:induction false} OptimizePreservesBag(db: Database, plan: Plan)
    requires Safe(db, plan) && BagSafe(db, plan) && IndexesAgree(db)
    ensures Alike(db, plan, Optimized(Some(db), plan))
    decreases plan
  {
    var children := seq(|plan.children|, i requires 0 <= i < |plan.children| => Optimized(Some(db), plan.children[i]));
    forall i | 0 <= i < |children| && Needed(db, plan, i) ensures Alike(db, plan.children[i], children[i]) {
      OptimizePreservesBag(db, plan.children[i]);
    }
    NodeAlike(db, plan, children);
    if OrderFixed(db, plan) {
      NodeFixed(db, plan, children);
    }
    var node := Plan(plan.operator, children);
    if node.operator.SeqScan? {
      ScanAlike(db, plan, node);
    } else {
      HashRewrite(db, node);
    }
  }

  lemma ScanAlike(db: Database, plan: Plan, node: Plan)
    requires IndexesAgree(db) && Run(db, plan).Some? && ConstantFits(db, plan)
    requires plan.operator.SeqScan? && node.operator == plan.operator
    ensures Alike(db, plan, NestedLoopToHash(SeqScanToIndexScan(Some(db), node)))
  {
    var scan := SeqScanToIndexScan(Some(db), node);
    assert Run(db, node) == Run(db, plan);
    if scan != node {
      assert scan == SeqScanToIndexScan(Some(db), plan);
      IndexRewriteExactly(db, plan);
      if AllSame(Run(db, plan).value) {
        SameOrder(Run(db, plan).value, Run(db, scan).value);
      }
    }
  }

  // ---------- Limits over index scans ----------

  /** A limited scan keeps its answer whatever the order in which an index lists its rows exactly when the limit does not choose. */
  lemma LimitKeepsExactly(index: Index, rows: seq<Stored>, condition: Option<Expr>, v: Value, count: nat)
    requires IndexAgrees(index, rows) && v.Type() == INTEGER
    requires PointLookup(condition) == Some((index.lookupAttr, Constant(v)))
    ensures (forall other :: AnswersFor(other, index, rows) ==> LimitKept(other, rows, condition, v, count)) <==>
            LimitFree(count, RowsOf(Filtered(rows, condition)))
  {
    var found := RowsOf(Filtered(rows, condition));
    if LimitFree(count, found) {
      forall other | AnswersFor(other, index, rows) ensures LimitKept(other, rows, condition, v, count) {
        IndexScanBag(other, rows, condition, v);
        LimitedBag(count, found, FetchAll(rows, Lookup(other, v.AsInteger())).value);
      }
    } else {
      var other := IndexThatShows(index, rows, condition, v, count);
    }
  }

  /** An index on the same column that also agrees with the table. */
  ghost predicate AnswersFor(other: Index, index: Index, rows: seq<Stored>) {
    IndexAgrees(other, rows) && other.lookupAttr == index.lookupAttr
  }

  ghost predicate LimitKept(index: Index, rows: seq<Stored>, condition: Option<Expr>, v: Value, count: nat)
    requires v.Type() == INTEGER
  {
    var found := FetchAll(rows, Lookup(index, v.AsInteger()));
    found.Some? && SameBag(Limited(count, RowsOf(Filtered(rows, condition))), Limited(count, found.value))
  }

  lemma IndexThatShows(index: Index, rows: seq<Stored>, condition: Option<Expr>, v: Value, count: nat) returns (other: Index)
    requires IndexAgrees(index, rows) && v.Type() == INTEGER
    requires PointLookup(condition) == Some((index.lookupAttr, Constant(v)))
    requires !LimitFree(count, RowsOf(Filtered(rows, condition)))
    ensures AnswersFor(other, index, rows) && !LimitKept(other, rows, condition, v, count)
  {
    var kept := Filtered(rows, condition);
    var i, j := DifferentAcross(count, RowsOf(kept));
    var kept' := kept[i := kept[j]][j := kept[i]];
    Exchange(kept, i, j);
    FilteredDistinct(rows, condition);
    other := index.(entries := index.entries[v.AsInteger() := RidsOf(kept')]);
    ListedAgrees(index, rows, condition, v, kept');
    forall x | x in kept' ensures x in rows {
      SameMembers(kept, kept', x);
      InFiltered(rows, condition, x);
    }
    FetchStored(rows, kept');
    var taken := RowsOf(kept)[..count];
    assert RowsOf(kept')[..count] == taken[i := RowsOf(kept)[j]];
    OneLess(taken, i, RowsOf(kept)[j]);
  }

  /** An index may list the rows of a key in any order. */
  lemma ListedAgrees(index: Index, rows: seq<Stored>, condition: Option<Expr>, v: Value, kept: seq<Stored>)
    requires IndexAgrees(index, rows) && v.Type() == INTEGER && kept != []
    requires PointLookup(condition) == Some((index.lookupAttr, Constant(v))) && SameBag(Filtered(rows, condition), kept)
    requires DistinctRids(kept)
    ensures IndexAgrees(index.(entries := index.entries[v.AsInteger() := RidsOf(kept)]), rows)
  {
    hide Filtered, RowsOf, Keeps, KeyIs, HasKey, KeyedAt;
    var other := index.(entries := index.entries[v.AsInteger() := RidsOf(kept)]);
    forall key, rid ensures rid in Lookup(other, key) <==> KeyedAt(rows, index.lookupAttr, key, rid) {
      if key == v.AsInteger() {
        KeptRids(index, rows, condition, v, rid);
        RidsBag(Filtered(rows, condition), kept, rid);
      }
    }
    var rids := RidsOf(kept);
    assert forall i, j :: 0 <= i < j < |rids| ==> rids[i] != rids[j];
    forall key, i, j | 0 <= i < j < |Lookup(other, key)| ensures Lookup(other, key)[i] != Lookup(other, key)[j] {
      assert Lookup(other, key) == if key == v.AsInteger() then rids else Lookup(index, key);
    }
  }

  lemma RidsBag(a: seq<Stored>, b: seq<Stored>, rid: Rid)
    requires SameBag(a, b)
    ensures rid in RidsOf(a) <==> rid in RidsOf(b)
  {
    if rid in RidsOf(a) {
      var i :| 0 <= i < |a| && RidsOf(a)[i] == rid;
      SameMembers(a, b, a[i]);
      var j :| 0 <= j < |b| && b[j] == a[i];
      assert RidsOf(b)[j] == rid;
    }
    if rid in RidsOf(b) {
      var i :| 0 <= i < |b| && RidsOf(b)[i] == rid;
      SameMembers(a, b, b[i]);
      var j :| 0 <= j < |a| && a[j] == b[i];
      assert RidsOf(a)[j] == rid;
    }
  }

  // ---------- Where the conditions are needed ----------

  /** Under a LIMIT the index rewrite may change the answer, because an index lists rows in its own order. */
  lemma {:induction false} LimitSeesTheOrder() returns (db: Database, plan: Plan)
    ensures IndexesAgree(db) && Safe(db, plan)
    ensures Run(db, plan).Some? && Run(db, Optimized(Some(db), plan)).Some?
    ensures !SameRows(Run(db, plan), Run(db, Optimized(Some(db), plan)))
  {
    hide SeqScanToIndexScan, FetchAll, Filtered, RowsOf, IndexAgrees;
    var a, b := [Integer(7), Integer(1)], [Integer(7), Integer(2)];
    var rows := [Stored(Rid(0, 0), a), Stored(Rid(0, 1), b)];
    var index := Index(1, 0, true, map[7 := [Rid(0, 1), Rid(0, 0)]]);
    var condition := Some(Comparison(Equal, Column(0, 0), Constant(Integer(7))));
    var scan := Plan(SeqScan(0, condition), []);
    db := map[0 := Table(rows, [index])];
    plan := Plan(Limit(1), [scan]);
    SmallIndexAgrees(index, rows, a, b);
    var scan' := BothScans(db, rows, index, condition);
    LimitOver(db, 1, scan);
    LimitOver(db, 1, scan');
    assert [a, b][..1] == [a] && [b, a][..1] == [b];
    assert multiset([a])[a] == 1 && multiset([b])[a] == 0;
  }

  lemma LimitOver(db: Database, count: nat, child: Plan)
    requires Run(db, child).Some?
    ensures Run(db, Plan(Limit(count), [child])) == Some(Limited(count, Run(db, child).value))
    ensures Optimized(Some(db), Plan(Limit(count), [child])) == Plan(Limit(count), [Optimized(Some(db), child)])
  {
    var plan := Plan(Limit(count), [child]);
    assert seq(|plan.children|, i requires 0 <= i < |plan.children| => Optimized(Some(db), plan.children[i])) == [Optimized(Some(db), child)];
  }

  lemma {:induction false} BothScans(db: Database, rows: seq<Stored>, index: Index, condition: Option<Expr>) returns (scan': Plan)
    requires |rows| == 2 && DistinctRids(rows) && db == map[0 := Table(rows, [index])]
    requires condition == Some(Comparison(Equal, Column(0, 0), Constant(Integer(7))))
    requires index == Index(1, 0, true, map[7 := [rows[1].rid, rows[0].rid]])
    requires KeyIs(rows[0].row, 0, 7) && KeyIs(rows[1].row, 0, 7)
    ensures scan' == Optimized(Some(db), Plan(SeqScan(0, condition), []))
    ensures Run(db, Plan(SeqScan(0, condition), [])) == Some([rows[0].row, rows[1].row])
    ensures Run(db, scan') == Some([rows[1].row, rows[0].row])
  {
    var scan := Plan(SeqScan(0, condition), []);
    PointKeeps(condition, 0, Integer(7), rows[0].row);
    PointKeeps(condition, 0, Integer(7), rows[1].row);
    KeepsBoth(rows, condition);
    assert RowsOf(rows) == [rows[0].row, rows[1].row];
    scan' := Plan(IndexScan(0, 1, Constant(Integer(7)), condition), []);
    FetchBoth(rows);
  }

  lemma {:induction false} KeepsBoth(rows: seq<Stored>, condition: Option<Expr>)
    requires |rows| == 2 && Keeps(condition, rows[0].row) && Keeps(condition, rows[1].row)
    ensures Filtered(rows, condition) == rows
  {
    var one := rows[..1];
    assert one[..0] == [] && Filtered(one, condition) == [rows[0]];
    assert rows == [rows[0]] + [rows[1]];
  }

  lemma {:induction false} FetchBoth(rows: seq<Stored>)
    requires |rows| == 2 && DistinctRids(rows)
    ensures FetchAll(rows, [rows[1].rid, rows[0].rid]) == Some([rows[1].row, rows[0].row])
  {
    var both := [rows[1], rows[0]];
    FetchStored(rows, both);
    assert RidsOf(both) == [rows[1].rid, rows[0].rid] && RowsOf(both) == [rows[1].row, rows[0].row];
  }

  lemma SmallIndexAgrees(index: Index, rows: seq<Stored>, a: Row, b: Row)
    requires a == [Integer(7), Integer(1)] && b == [Integer(7), Integer(2)]
    requires rows == [Stored(Rid(0, 0), a), Stored(Rid(0, 1), b)]
    requires index == Index(1, 0, true, map[7 := [Rid(0, 1), Rid(0, 0)]])
    ensures IndexAgrees(index, rows)
  {
    forall key, rid ensures rid in Lookup(index, key) <==> KeyedAt(rows, 0, key, rid) {
      if key == 7 {
        assert KeyIs(rows[0].row, 0, 7) && KeyIs(rows[1].row, 0, 7);
      }
    }
  }
}
