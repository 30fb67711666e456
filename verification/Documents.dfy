// Parsed documents: TOML and JSON tables without null, and how their values compare.
module Documents {
  import opened Wrappers

  /** A value; the documents here hold no null, so a missing field differs from every present one. */
  datatype Value =
    | Text(text: string) | Number(n: int) | Fraction(x: real) | NegativeZero | Flag(b: bool)
    | List(items: seq<Value>) | Table(fields: map<string, Value>)

  function Get<T>(m: map<string, T>, field: string): Option<T> {
    if field in m then Some(m[field]) else None
  }

  predicate Truthy(v: Option<Value>) {
    match v
    case None => false
    case Some(Text(s)) => s != ""
    case Some(Number(n)) => n != 0
    case Some(Fraction(x)) => x != 0.0
    case Some(NegativeZero) => false
    case Some(Flag(b)) => b
    case Some(List(items)) => items != []
    case Some(Table(fields)) => fields != map[]
  }

  // ------------------------------------------------------------------------------- comparison

  function Numeric(v: Value): Option<real> {
    match v
    case Number(n) => Some(n as real)
    case Fraction(x) => Some(x)
    case NegativeZero => Some(0.0)
    case Flag(b) => Some(if b then 1.0 else 0.0)
    case _ => None
  }

  /** `v == w`: numbers, fractions, negative zero and flags compare by value, at any depth. */
  predicate Equal(v: Value, w: Value) {
    match (v, w)
    case (Text(s), Text(t)) => s == t
    case (List(a), List(b)) => |a| == |b| && forall i :: 0 <= i < |a| ==> Equal(a[i], b[i])
    case (Table(a), Table(b)) => a.Keys == b.Keys && forall k :: k in a ==> Equal(a[k], b[k])
    case _ => Numeric(v).Some? && Numeric(v) == Numeric(w)
  }

  /** `a == b` for two tables. */
  predicate Alike(a: map<string, Value>, b: map<string, Value>) {
    Equal(Table(a), Table(b))
  }

  /** `m.get(f) == m'.get(f)` */
  predicate Same(a: Option<Value>, b: Option<Value>) {
    match (a, b)
    case (Some(v), Some(w)) => Equal(v, w)
    case _ => a == b
  }

  /** Which values of different kinds compare equal. */
  lemma KindsThatCompare(n: int, x: real, b: bool)
    ensures Equal(Number(n), Fraction(x)) <==> n as real == x
    ensures Equal(Flag(b), Number(n)) <==> n == if b then 1 else 0
    ensures Equal(Flag(b), Fraction(x)) <==> x == if b then 1.0 else 0.0
    ensures Equal(NegativeZero, Number(n)) <==> n == 0
    ensures Equal(NegativeZero, Fraction(x)) <==> x == 0.0
    ensures Equal(Flag(b), NegativeZero) <==> !b
  {
  }

  lemma {:induction false} EqualReflexive(v: Value)
    ensures Equal(v, v)
  {
    match v
    case List(items) =>
      forall i | 0 <= i < |items| ensures Equal(items[i], items[i]) {
        EqualReflexive(items[i]);
      }
    case Table(fields) =>
      forall k | k in fields ensures Equal(fields[k], fields[k]) {
        EqualReflexive(fields[k]);
      }
    case _ =>
  }

  lemma {:induction false} EqualSymmetric(v: Value, w: Value)
    requires Equal(v, w)
    ensures Equal(w, v)
  {
    match (v, w)
    case (List(a), List(b)) =>
      forall i | 0 <= i < |a| ensures Equal(b[i], a[i]) {
        EqualSymmetric(a[i], b[i]);
      }
    case (Table(a), Table(b)) =>
      forall k | k in a ensures Equal(b[k], a[k]) {
        EqualSymmetric(a[k], b[k]);
      }
    case _ =>
  }

  lemma {:induction false} EqualTransitive(u: Value, v: Value, w: Value)
    requires Equal(u, v) && Equal(v, w)
    ensures Equal(u, w)
  {
    match (u, v, w)
    case (List(a), List(b), List(c)) =>
      forall i | 0 <= i < |a| ensures Equal(a[i], c[i]) {
        EqualTransitive(a[i], b[i], c[i]);
      }
    case (Table(a), Table(b), Table(c)) =>
      forall k | k in a ensures Equal(a[k], c[k]) {
        EqualTransitive(a[k], b[k], c[k]);
      }
    case _ =>
  }

  /** At every place that both have, the two values are of the same kind. */
  predicate SameKinds(v: Value, w: Value) {
    match (v, w)
    case (List(a), List(b)) => forall i :: 0 <= i < |a| && i < |b| ==> SameKinds(a[i], b[i])
    case (Table(a), Table(b)) => forall k :: k in a && k in b ==> SameKinds(a[k], b[k])
    case (Text(_), Text(_)) => true
    case (Number(_), Number(_)) => true
    case (Fraction(_), Fraction(_)) => true
    case (NegativeZero, NegativeZero) => true
    case (Flag(_), Flag(_)) => true
    case _ => false
  }

  /**
   * Equal values are identical exactly when nowhere a number, fraction, negative zero or flag stands for
   * another kind.
   */
  lemma {:induction false} EqualIsIdentical(v: Value, w: Value)
    requires Equal(v, w)
    ensures v == w <==> SameKinds(v, w)
  {
    match (v, w)
    case (List(a), List(b)) =>
      forall i | 0 <= i < |a| ensures a[i] == b[i] <==> SameKinds(a[i], b[i]) {
        EqualIsIdentical(a[i], b[i]);
      }
    case (Table(a), Table(b)) =>
      forall k | k in a ensures a[k] == b[k] <==> SameKinds(a[k], b[k]) {
        EqualIsIdentical(a[k], b[k]);
      }
    case _ =>
  }

  /** The fields whose values differ, a missing value included. */
  function ChangedFields(before: map<string, Value>, after: map<string, Value>): set<string> {
    set f | f in before.Keys + after.Keys && !Same(Get(before, f), Get(after, f))
  }

  lemma NoChangedFields(before: map<string, Value>, after: map<string, Value>)
    ensures ChangedFields(before, after) == {} <==> Alike(before, after)
    ensures Alike(before, after) <==> forall f :: Same(Get(before, f), Get(after, f))
  {
    forall f | f in before.Keys + after.Keys && !Same(Get(before, f), Get(after, f))
      ensures f in ChangedFields(before, after) {
    }
    if forall f :: Same(Get(before, f), Get(after, f)) {
      forall k ensures k in before <==> k in after {
        assert Same(Get(before, k), Get(after, k));
      }
      forall k | k in before ensures Equal(before[k], after[k]) {
        assert Same(Get(before, k), Get(after, k));
      }
    }
  }

  lemma SameTransitive(a: Option<Value>, b: Option<Value>, c: Option<Value>)
    requires Same(a, b) && Same(b, c)
    ensures Same(a, c)
  {
    if a.Some? {
      EqualTransitive(a.value, b.value, c.value);
    }
  }

  lemma SameReflexive(a: Option<Value>)
    ensures Same(a, a)
  {
    if a.Some? {
      EqualReflexive(a.value);
    }
  }
}
