/**
 * The flat string-to-string mappings every decoder of the router produces
 * (`qp.a`, `qp.testkey` in the tests). Decoders first produce the ordered list of
 * name/value pairs they found; the mapping keeps, for each name, the value of its
 * LAST pair, as repeated assignment to a JavaScript object does.
 */
module Fields {

  type Pair = (string, string)

  /** No pair after position `i` has the same name as pair `i`. */
  predicate IsLastWithName<V>(pairs: seq<(string, V)>, i: nat)
    requires i < |pairs|
  {
    forall j :: i < j < |pairs| ==> pairs[j].0 != pairs[i].0
  }

  /** The mapping of the pairs, later pairs overriding earlier ones. */
  function ToMap<V>(pairs: seq<(string, V)>): (m: map<string, V>)
    ensures m.Keys == set i | 0 <= i < |pairs| :: pairs[i].0
    ensures forall i :: 0 <= i < |pairs| && IsLastWithName(pairs, i) ==> m[pairs[i].0] == pairs[i].1
  {
    if pairs == [] then map[]
    else
      var init := pairs[..|pairs| - 1];
      var last := pairs[|pairs| - 1];
      assert forall i :: 0 <= i < |init| ==> init[i] == pairs[i];
      ToMap(init)[last.0 := last.1]
  }

  /** Every value the mapping holds is the value of some pair with that name. */
  lemma {:induction false} ToMapValues<V>(pairs: seq<(string, V)>, k: string)
    requires k in ToMap(pairs)
    ensures exists i :: 0 <= i < |pairs| && pairs[i] == (k, ToMap(pairs)[k])
  {
    var last := pairs[|pairs| - 1];
    if last.0 != k {
      var init := pairs[..|pairs| - 1];
      ToMapValues(init, k);
      var i :| 0 <= i < |init| && init[i] == (k, ToMap(init)[k]);
      assert pairs[i] == init[i];
    } else {
      assert pairs[|pairs| - 1] == (k, ToMap(pairs)[k]);
    }
  }
}
