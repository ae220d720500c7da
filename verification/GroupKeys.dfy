/**
 The text under which aggregation files a row: the texts of its grouping values, each closed by
 a '#'.  When two rows with different values get the same text depends on the column types alone.
 */
module GroupKeys {
  import opened Types
  import opened Values

  function KeyText(values: seq<Value>): string {
    if values == [] then "" else
      var n := |values| - 1;
      KeyText(values[..n]) + values[n].ToString() + "#"
  }

  /** A row without grouping columns is filed under a name of its own. */
  function HashKey(values: seq<Value>): string {
    if KeyText(values) == "" then "SINGLE_GROUP" else KeyText(values)
  }

  /** Values of the given column types; nulls in text columns only if `nullText`. */
  predicate Typed(values: seq<Value>, types: seq<TypeId>, nullText: bool) {
    && |values| == |types|
    && forall i :: 0 <= i < |values| ==> values[i].Type() == types[i] && (types[i] == VARCHAR && !nullText ==> !values[i].Null?)
  }

  ghost predicate Injective(types: seq<TypeId>, nullText: bool) {
    forall a, b :: Typed(a, types, nullText) && Typed(b, types, nullText) && KeyText(a) == KeyText(b) ==> a == b
  }

  predicate AtMostOneText(types: seq<TypeId>) {
    forall i, j :: 0 <= i < j < |types| ==> types[i] != VARCHAR || types[j] != VARCHAR
  }

  predicate Readable(types: seq<TypeId>, nullText: bool) {
    if nullText then VARCHAR !in types else AtMostOneText(types)
  }

  /** Which column types the text tells apart: no text column, or a single one that holds no nulls. */
  lemma InjectiveExactly(types: seq<TypeId>, nullText: bool)
    requires INVALID !in types
    ensures Injective(types, nullText) <==> Readable(types, nullText)
  {
    if Readable(types, nullText) {
      forall a, b | Typed(a, types, nullText) && Typed(b, types, nullText) && KeyText(a) == KeyText(b) ensures a == b {
        KeyReadable(a, b, types, nullText);
      }
    } else if nullText {
      NullLooksLikeText(types);
    } else {
      TextsRunTogether(types);
    }
  }

  // ---------- Reading a key ----------

  lemma {:induction false} KeyAppend(a: seq<Value>, b: seq<Value>)
    ensures KeyText(a + b) == KeyText(a) + KeyText(b)
    decreases |b|
  {
    if b == [] {
      assert a + b == a;
    } else {
      var n := |b| - 1;
      KeyAppend(a, b[..n]);
      assert (a + b)[..|a + b| - 1] == a + b[..n] && (a + b)[|a + b| - 1] == b[n];
      Associative(KeyText(a), KeyText(b[..n]), b[n].ToString(), "#");
    }
  }

  lemma Associative(x: string, y: string, s: string, t: string)
    ensures x + y + s + t == x + (y + s + t)
  {
  }

  lemma KeyOfOne(v: Value)
    ensures KeyText([v]) == v.ToString() + "#"
  {
    assert [v][..0] == [];
  }

  lemma {:induction false} DecimalHasNoHash(n: nat)
    ensures '#' !in Decimal(n)
  {
    DecimalDenotes(n);
  }

  lemma NoHash(v: Value)
    requires v.Type() != VARCHAR
    ensures '#' !in v.ToString()
  {
    if v.Integer? {
      var i: int := v.i;
      DecimalHasNoHash(if i < 0 then -i else i);
    }
  }

  /** Within a column, values with the same text are the same, but for a null and the text "NULL". */
  lemma SameText(a: Value, b: Value)
    requires a.Type() == b.Type() && a.ToString() == b.ToString()
    requires a.Type() == VARCHAR ==> !a.Null? && !b.Null?
    ensures a == b
  {
    if a.Integer? {
      NumberIsNotNull(a.i);
      if b.Integer? {
        SignedDecimalInjective(a.i, b.i);
      }
    } else if b.Integer? {
      NumberIsNotNull(b.i);
    }
  }

  lemma {:induction false} SplitFront(s: string, x: string, t: string, y: string)
    requires '#' !in s && '#' !in t && s + "#" + x == t + "#" + y
    ensures s == t && x == y
  {
    var u := s + "#" + x;
    assert u == t + "#" + y;
    assert u[|s|] == '#' && u[|t|] == '#';
    assert s == u[..|s|] && t == u[..|t|] && x == u[|s| + 1..] && y == u[|t| + 1..];
  }

  predicate Closed(s: string) {
    s == "" || s[|s| - 1] == '#'
  }

  lemma HashInside(x: string, s: string, y: string, t: string)
    requires Closed(x) && x + s == y + t && |x| > |y|
    ensures '#' in t
  {
    assert (x + s)[|x| - 1] == '#' && (y + t)[|x| - 1] == t[|x| - 1 - |y|];
  }

  lemma SplitBack(x: string, s: string, y: string, t: string)
    requires '#' !in s && '#' !in t && Closed(x) && Closed(y) && x + s + "#" == y + t + "#"
    ensures s == t && x == y
  {
    assert x + s == (x + s + "#")[..|x| + |s|] && y + t == (y + t + "#")[..|y| + |t|];
    if |x| > |y| {
      HashInside(x, s, y, t);
    } else if |y| > |x| {
      HashInside(y, t, x, s);
    }
    assert x == (x + s)[..|x|] && y == (y + t)[..|y|] && s == (x + s)[|x|..] && t == (y + t)[|y|..];
  }

  lemma {:induction false} KeyReadable(a: seq<Value>, b: seq<Value>, types: seq<TypeId>, nullText: bool)
    requires Typed(a, types, nullText) && Typed(b, types, nullText) && Readable(types, nullText)
    requires KeyText(a) == KeyText(b)
    ensures a == b
    decreases |types|
  {
    hide KeyText;
    var n := |types| - 1;
    if n == 0 {
      OneRead(a, b);
      SameText(a[0], b[0]);
    } else if n > 0 {
      PartsTyped(a, types, nullText);
      PartsTyped(b, types, nullText);
      if types[0] != VARCHAR {
        FirstRead(a, b);
        KeyReadable(a[1..], b[1..], types[1..], nullText);
        assert a == [a[0]] + a[1..] && b == [b[0]] + b[1..];
      } else {
        LastRead(a, b);
        KeyReadable(a[..n], b[..n], types[..n], nullText);
        assert a == a[..n] + [a[n]] && b == b[..n] + [b[n]];
      }
    }
  }

  lemma PartsTyped(a: seq<Value>, types: seq<TypeId>, nullText: bool)
    requires Typed(a, types, nullText) && Readable(types, nullText) && a != []
    ensures Typed(a[1..], types[1..], nullText) && Readable(types[1..], nullText)
    ensures var n := |a| - 1; Typed(a[..n], types[..n], nullText) && Readable(types[..n], nullText)
  {
  }

  /** A last value that is no text is read off the back of the key. */
  lemma LastRead(a: seq<Value>, b: seq<Value>)
    requires var n := |a| - 1; |a| == |b| > 0 && a[n].Type() == b[n].Type() != VARCHAR && KeyText(a) == KeyText(b)
    ensures var n := |a| - 1; a[n] == b[n] && KeyText(a[..n]) == KeyText(b[..n])
  {
    var n := |a| - 1;
    NoHash(a[n]);
    NoHash(b[n]);
    SplitBack(KeyText(a[..n]), a[n].ToString(), KeyText(b[..n]), b[n].ToString());
    SameText(a[n], b[n]);
  }

  lemma OneRead(a: seq<Value>, b: seq<Value>)
    requires |a| == |b| == 1 && KeyText(a) == KeyText(b)
    ensures a[0].ToString() == b[0].ToString()
  {
    var s, t := a[0].ToString(), b[0].ToString();
    assert KeyText(a) == s + "#" && KeyText(b) == t + "#";
    assert s == (s + "#")[..|s|] && t == (t + "#")[..|t|];
  }

  /** A first value that is no text is read off the front of the key. */
  lemma FirstRead(a: seq<Value>, b: seq<Value>)
    requires |a| == |b| > 0 && a[0].Type() == b[0].Type() != VARCHAR && KeyText(a) == KeyText(b)
    ensures a[0] == b[0] && KeyText(a[1..]) == KeyText(b[1..])
  {
    KeyAppend([a[0]], a[1..]);
    KeyAppend([b[0]], b[1..]);
    KeyOfOne(a[0]);
    KeyOfOne(b[0]);
    assert [a[0]] + a[1..] == a && [b[0]] + b[1..] == b;
    NoHash(a[0]);
    NoHash(b[0]);
    SplitFront(a[0].ToString(), KeyText(a[1..]), b[0].ToString(), KeyText(b[1..]));
    SameText(a[0], b[0]);
  }

  // ---------- Keys that say too little ----------

  function SomeValue(t: TypeId): (v: Value)
    ensures t != INVALID ==> v.Type() == t && !v.Null?
  {
    match t
    case BOOLEAN => Boolean(true)
    case INTEGER => Integer(0)
    case _ => Varchar("")
  }

  function SomeValues(types: seq<TypeId>): (values: seq<Value>)
    requires INVALID !in types
    ensures Typed(values, types, false)
  {
    seq(|types|, i requires 0 <= i < |types| => SomeValue(types[i]))
  }

  /** Changing one value of a row, or two, keeps the rest of the key. */
  function With(l: seq<Value>, v: Value, r: seq<Value>): seq<Value> {
    l + ([v] + r)
  }

  lemma KeyWith(l: seq<Value>, v: Value, r: seq<Value>)
    ensures KeyText(With(l, v, r)) == KeyText(l) + ((v.ToString() + "#") + KeyText(r))
  {
    KeyAppend(l, [v] + r);
    KeyAppend([v], r);
    KeyOfOne(v);
  }

  lemma TypedWith(l: seq<Value>, v: Value, r: seq<Value>, types: seq<TypeId>, nullText: bool)
    requires |l| < |types| && Typed(l, types[..|l|], nullText) && Typed(r, types[|l| + 1..], nullText)
    requires v.Type() == types[|l|] && (v.Null? ==> nullText)
    ensures Typed(With(l, v, r), types, nullText)
  {
    var values := With(l, v, r);
    forall i | 0 <= i < |values|
      ensures values[i].Type() == types[i] && (types[i] == VARCHAR && !nullText ==> !values[i].Null?)
    {
      assert i > |l| ==> types[i] == types[|l| + 1..][i - |l| - 1];
    }
  }

  lemma NullLooksLikeText(types: seq<TypeId>)
    requires INVALID !in types && VARCHAR in types
    ensures !Injective(types, true)
  {
    var p :| 0 <= p < |types| && types[p] == VARCHAR;
    var l, r := SomeValues(types[..p]), SomeValues(types[p + 1..]);
    var a, b := With(l, Null(VARCHAR), r), With(l, Varchar("NULL"), r);
    KeyWith(l, Null(VARCHAR), r);
    KeyWith(l, Varchar("NULL"), r);
    TypedWith(l, Null(VARCHAR), r, types, true);
    TypedWith(l, Varchar("NULL"), r, types, true);
    assert a[p] != b[p];
  }

  lemma TextsRunTogether(types: seq<TypeId>)
    requires INVALID !in types && !AtMostOneText(types)
    ensures !Injective(types, false)
  {
    var p, q :| 0 <= p < q < |types| && types[p] == VARCHAR && types[q] == VARCHAR;
    var l, m, r := SomeValues(types[..p]), SomeValues(types[p + 1..q]), SomeValues(types[q + 1..]);
    var filler := "#" + KeyText(m);
    TwoTextsTyped(types, p, q, "", filler);
    TwoTextsTyped(types, p, q, filler, "");
    KeyOfTwoTexts(l, "", m, filler, r);
    KeyOfTwoTexts(l, filler, m, "", r);
    Rotate(KeyText(m), KeyText(r));
    assert TwoTexts(l, "", m, filler, r)[p] != TwoTexts(l, filler, m, "", r)[p];
  }

  function TwoTexts(l: seq<Value>, s: string, m: seq<Value>, t: string, r: seq<Value>): seq<Value> {
    With(l, Varchar(s), With(m, Varchar(t), r))
  }

  lemma KeyOfTwoTexts(l: seq<Value>, s: string, m: seq<Value>, t: string, r: seq<Value>)
    ensures KeyText(TwoTexts(l, s, m, t, r)) == KeyText(l) + ((s + "#") + (KeyText(m) + ((t + "#") + KeyText(r))))
  {
    KeyWith(l, Varchar(s), With(m, Varchar(t), r));
    KeyWith(m, Varchar(t), r);
  }

  lemma TwoTextsTyped(types: seq<TypeId>, p: nat, q: nat, s: string, t: string)
    requires INVALID !in types && p < q < |types| && types[p] == VARCHAR && types[q] == VARCHAR
    ensures var l, m, r := SomeValues(types[..p]), SomeValues(types[p + 1..q]), SomeValues(types[q + 1..]);
            Typed(TwoTexts(l, s, m, t, r), types, false)
  {
    var l, m, r := SomeValues(types[..p]), SomeValues(types[p + 1..q]), SomeValues(types[q + 1..]);
    var rest := types[p + 1..];
    assert rest[..|m|] == types[p + 1..q] && rest[|m| + 1..] == types[q + 1..];
    TypedWith(m, Varchar(t), r, rest, false);
    TypedWith(l, Varchar(s), With(m, Varchar(t), r), types, false);
  }

  lemma Rotate(m: string, r: string)
    ensures ("" + "#") + (m + (("#" + m + "#") + r)) == ("#" + m + "#") + (m + (("" + "#") + r))
  {
  }
}
