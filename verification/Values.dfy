/** SQL values, their comparison and their text form, which the executors use as a hash key. */
module Values {
  import opened Types

  datatype TypeId = INVALID | BOOLEAN | INTEGER | VARCHAR

  datatype Value =
    | Null(nullType: TypeId)
    | Boolean(b: bool)
    | Integer(i: int32)
    | Varchar(s: string)
  {
    function Type(): TypeId {
      match this
      case Null(t) => t
      case Boolean(_) => BOOLEAN
      case Integer(_) => INTEGER
      case Varchar(_) => VARCHAR
    }

    // A null of a type still has a payload, the one its constructor leaves in the fields.

    function AsInteger(): int32
      requires Type() == INTEGER
    {
      if Null? then 0 else i
    }

    function AsBoolean(): bool
      requires Type() == BOOLEAN
    {
      if Null? then false else b
    }

    function AsString(): string
      requires Type() == VARCHAR
    {
      if Null? then "" else s
    }

    /** Equality looks at the payloads only; `None` is an exception. */
    function CompareEquals(o: Value): Option<bool> {
      if Type() != o.Type() then None else
        match Type()
        case BOOLEAN => Some(AsBoolean() == o.AsBoolean())
        case INTEGER => Some(AsInteger() == o.AsInteger())
        case VARCHAR => Some(AsString() == o.AsString())
        case INVALID => None
    }

    function ToString(): string {
      match this
      case Null(_) => "NULL"
      case Boolean(b) => if b then "true" else "false"
      case Integer(i) => SignedDecimal(i)
      case Varchar(s) => s
    }
  }

  // ---------- Decimal notation ----------

  function Digit(d: nat): char
    requires d < 10
  {
    '0' + d as char
  }

  function Decimal(n: nat): string {
    if n < 10 then [Digit(n)] else Decimal(n / 10) + [Digit(n % 10)]
  }

  function SignedDecimal(i: int): string {
    if i < 0 then "-" + Decimal(-i) else Decimal(i)
  }

  predicate IsDigits(s: string) {
    s != "" && forall k :: 0 <= k < |s| ==> '0' <= s[k] <= '9'
  }

  /** The number that digits denote. */
  function NumberOf(s: string): nat
    requires IsDigits(s)
  {
    var d := (s[|s| - 1] - '0') as nat;
    if |s| == 1 then d else 10 * NumberOf(s[..|s| - 1]) + d
  }

  lemma {:induction false} DecimalDenotes(n: nat)
    ensures IsDigits(Decimal(n)) && NumberOf(Decimal(n)) == n
    ensures Decimal(n)[0] == '0' ==> n == 0 && |Decimal(n)| == 1
  {
    if n >= 10 {
      DecimalDenotes(n / 10);
      var s := Decimal(n / 10);
      assert (s + [Digit(n % 10)])[..|s|] == s;
    }
  }

  /** Two integers with the same text are the same integer. */
  lemma SignedDecimalInjective(i: int, j: int)
    ensures SignedDecimal(i) == SignedDecimal(j) <==> i == j
  {
    DecimalDenotes(if i < 0 then -i else i);
    DecimalDenotes(if j < 0 then -j else j);
    assert i < 0 ==> SignedDecimal(i)[0] == '-' && SignedDecimal(i)[1..] == Decimal(-i);
    assert j < 0 ==> SignedDecimal(j)[0] == '-' && SignedDecimal(j)[1..] == Decimal(-j);
  }

  /** The text of an integer has its digits, without leading zeros, after a sign if it is negative. */
  lemma TextMeans(v: Value)
    ensures v.Null? ==> v.ToString() == "NULL"
    ensures v.Boolean? ==> v.ToString() == if v.b then "true" else "false"
    ensures v.Varchar? ==> v.ToString() == v.s
    ensures v.Integer? ==>
              var text := v.ToString();
              var digits := if v.i < 0 then text[1..] else text;
              && IsDigits(digits) && NumberOf(digits) == (if v.i < 0 then 0 - v.i else v.i)
              && (digits[0] == '0' ==> |digits| == 1) && (v.i < 0 ==> text[0] == '-')
  {
    if v.Integer? {
      var n: int := if v.i < 0 then 0 - v.i else v.i;
      DecimalDenotes(n);
      assert v.i < 0 ==> v.ToString()[1..] == Decimal(n);
    }
  }

  // ---------- Text keys against comparison ----------

  /** Two values of one type that compare as equal and print differently, or the other way round. */
  predicate Clash(a: Value, b: Value) {
    || (a.Null? && !b.Null? && NullClash(b))
    || (b.Null? && !a.Null? && NullClash(a))
  }

  /** A value that a null is taken for, by its payload or by its text. */
  predicate NullClash(v: Value) {
    v == Integer(0) || v == Boolean(false) || v == Varchar("") || v == Varchar("NULL")
  }

  /** Equal text means equal value, except exactly for the clashes between nulls and values. */
  lemma TextAgrees(a: Value, b: Value)
    requires a.Type() == b.Type() && a.Type() != INVALID
    ensures (a.ToString() == b.ToString() <==> a.CompareEquals(b) == Some(true)) <==> !Clash(a, b)
  {
    if a.Integer? || b.Integer? {
      IntegerTextAgrees(a, b);
    }
  }

  lemma IntegerTextAgrees(a: Value, b: Value)
    requires a.Type() == INTEGER && b.Type() == INTEGER
    ensures (a.ToString() == b.ToString() <==> a.AsInteger() == b.AsInteger()) <==> !Clash(a, b)
  {
    NumberIsNotNull(a.AsInteger());
    NumberIsNotNull(b.AsInteger());
    if a.Integer? && b.Integer? {
      SignedDecimalInjective(a.i, b.i);
    }
  }

  lemma NumberIsNotNull(i: int)
    ensures SignedDecimal(i) != "NULL"
  {
    DecimalDenotes(if i < 0 then -i else i);
    var s := SignedDecimal(i);
    assert s[0] != 'N';
  }
}
