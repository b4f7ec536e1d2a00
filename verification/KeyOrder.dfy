/** The order a client observes: tuples of nullable keys compared
    lexicographically, each term ascending or descending, NULLs always last. */
module KeyOrder {
  import opened Sql

  type Keys = seq<Cell>

  function CompareKey(d: Dialect, desc: bool, a: Cell, b: Cell): Ordering {
    match (a, b)
    case (None, None) => Same
    case (None, Some(_)) => Greater
    case (Some(_), None) => Less
    case (Some(x), Some(y)) => if desc then Flip(CompareScalars(d, x, y)) else CompareScalars(d, x, y)
  }

  function CompareKeys(d: Dialect, descs: seq<bool>, a: Keys, b: Keys): Ordering
    requires |descs| == |a| == |b|
  {
    if descs == [] then Same
    else
      var first := CompareKey(d, descs[0], a[0], b[0]);
      if first != Same then first else CompareKeys(d, descs[1..], a[1..], b[1..])
  }

  predicate Before(d: Dialect, descs: seq<bool>, a: Keys, b: Keys)
    requires |descs| == |a| == |b|
  {
    CompareKeys(d, descs, a, b) == Less
  }

  lemma CompareKeyFlips(d: Dialect, desc: bool, a: Cell, b: Cell)
    requires TotalPreorder(d.le)
    ensures CompareKey(d, desc, b, a) == Flip(CompareKey(d, desc, a, b))
  {
    if a.Some? && b.Some? {
      assert d.le(a.value, b.value) || d.le(b.value, a.value);
    }
  }

  /** Chaining one step: Same is absorbed, and Less survives Same or Less. */
  lemma CompareKeyChains(d: Dialect, desc: bool, a: Cell, b: Cell, c: Cell)
    requires TotalPreorder(d.le)
    ensures CompareKey(d, desc, a, b) == Same ==> CompareKey(d, desc, a, c) == CompareKey(d, desc, b, c)
    ensures CompareKey(d, desc, b, c) == Same ==> CompareKey(d, desc, a, c) == CompareKey(d, desc, a, b)
    ensures CompareKey(d, desc, a, b) == Less && CompareKey(d, desc, b, c) == Less ==> CompareKey(d, desc, a, c) == Less
  {
    if a.Some? && b.Some? && c.Some? {
      var x, y, z := a.value, b.value, c.value;
      assert d.le(x, y) || d.le(y, x);
      assert d.le(y, z) || d.le(z, y);
      assert d.le(x, z) || d.le(z, x);
      assert d.le(x, y) && d.le(y, z) ==> d.le(x, z);
      assert d.le(y, x) && d.le(x, z) ==> d.le(y, z);
      assert d.le(z, y) && d.le(y, x) ==> d.le(z, x);
      assert d.le(x, z) && d.le(z, y) ==> d.le(x, y);
      assert d.le(y, z) && d.le(z, x) ==> d.le(y, x);
      assert d.le(z, x) && d.le(x, y) ==> d.le(z, y);
    }
  }

  lemma {:induction false} CompareKeysFlips(d: Dialect, descs: seq<bool>, a: Keys, b: Keys)
    requires TotalPreorder(d.le)
    requires |descs| == |a| == |b|
    ensures CompareKeys(d, descs, b, a) == Flip(CompareKeys(d, descs, a, b))
  {
    if descs != [] {
      CompareKeyFlips(d, descs[0], a[0], b[0]);
      CompareKeysFlips(d, descs[1..], a[1..], b[1..]);
    }
  }

  /** Lexicographic comparison is transitive, for any mix of directions. */
  lemma {:induction false} BeforeTransitive(d: Dialect, descs: seq<bool>, a: Keys, b: Keys, c: Keys)
    requires TotalPreorder(d.le)
    requires |descs| == |a| == |b| == |c|
    requires CompareKeys(d, descs, a, b) != Greater && CompareKeys(d, descs, b, c) != Greater
    ensures CompareKeys(d, descs, a, c) != Greater
    ensures Before(d, descs, a, b) || Before(d, descs, b, c) ==> Before(d, descs, a, c)
    ensures CompareKeys(d, descs, a, b) == Same ==> CompareKeys(d, descs, a, c) == CompareKeys(d, descs, b, c)
  {
    if descs != [] {
      CompareKeyChains(d, descs[0], a[0], b[0], c[0]);
      if CompareKey(d, descs[0], a[0], b[0]) == Same && CompareKey(d, descs[0], b[0], c[0]) == Same {
        BeforeTransitive(d, descs[1..], a[1..], b[1..], c[1..]);
      }
    }
  }

  /** Two tuples compare Same exactly when every position holds equal values or two NULLs. */
  lemma {:induction false} SameIsPointwise(d: Dialect, descs: seq<bool>, a: Keys, b: Keys)
    requires |descs| == |a| == |b|
    ensures CompareKeys(d, descs, a, b) == Same <==>
            forall i :: 0 <= i < |a| ==>
              a[i].Some? == b[i].Some? && (a[i].Some? ==> SameValue(d, a[i].value, b[i].value))
  {
    if descs != [] {
      SameIsPointwise(d, descs[1..], a[1..], b[1..]);
      assert forall i :: 0 < i < |a| ==> a[i] == a[1..][i - 1] && b[i] == b[1..][i - 1];
      assert forall i :: 0 <= i < |a[1..]| ==> a[1..][i] == a[i + 1] && b[1..][i] == b[i + 1];
    }
  }
}
