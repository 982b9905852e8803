/**
 * The attribute query the Python binding runs over a graph: collect the
 * nodes whose attribute map sends `key` to `value`, then copy them into a
 * freshly allocated array together with their number.
 *
 * A node is named by its position in the graph's node order, and attrs[n]
 * is the attribute map of node n.  The parallel collection into a bag is
 * read as a sequential loop; because the runtime fixes no order for the
 * bag, the contract fixes none for the array.
 */
module Filter {

  /** The attribute map sends key to value. */
  predicate Matches<K, V(==)>(attr: map<K, V>, key: K, value: V)
  {
    key in attr && attr[key] == value
  }

  /** The matching nodes among the first m. */
  ghost function MatchingBelow<K, V>(attrs: seq<map<K, V>>, key: K, value: V, m: nat): set<nat>
    requires m <= |attrs|
  {
    set n | 0 <= n < m && Matches(attrs[n], key, value)
  }

  lemma MatchingBelowStep<K, V>(attrs: seq<map<K, V>>, key: K, value: V, m: nat)
    requires m < |attrs|
    ensures m !in MatchingBelow(attrs, key, value, m)
    ensures |MatchingBelow(attrs, key, value, m + 1)| ==
      |MatchingBelow(attrs, key, value, m)| + if Matches(attrs[m], key, value) then 1 else 0
  {
    if Matches(attrs[m], key, value) {
      assert MatchingBelow(attrs, key, value, m + 1) == MatchingBelow(attrs, key, value, m) + {m};
    } else {
      assert MatchingBelow(attrs, key, value, m + 1) == MatchingBelow(attrs, key, value, m);
    }
  }

  /**
   * `filterNode`: `num` is the number of matching nodes; `nodes` is null
   * exactly when there are none, and otherwise is a newly allocated array,
   * owned by the caller, that holds each matching node once and nothing
   * else.
   */
  method FilterNode<K, V(==)>(attrs: seq<map<K, V>>, key: K, value: V)
    returns (num: nat, nodes: array?<nat>)
    ensures num == |MatchingBelow(attrs, key, value, |attrs|)|
    ensures nodes == null <==> num == 0
    ensures nodes != null ==> fresh(nodes) && nodes.Length == num
    ensures nodes != null ==> forall i :: 0 <= i < num ==>
      nodes[i] < |attrs| && Matches(attrs[nodes[i]], key, value)
    ensures nodes != null ==> forall i, j :: 0 <= i < j < num ==> nodes[i] != nodes[j]
    ensures nodes != null ==> forall n :: 0 <= n < |attrs| && Matches(attrs[n], key, value) ==>
      n in nodes[..]
  {
    var bag := CollectMatches(attrs, key, value);

    // Copy them out.
    num := |bag|;
    nodes := null;
    if num != 0 {
      nodes := new nat[num];
      var i := 0;
      while i < num
        invariant 0 <= i <= num
        invariant nodes[..i] == bag[..i]
      {
        nodes[i] := bag[i];
        i := i + 1;
      }
      assert nodes[..] == bag;
    }
  }

  /**
   * The parallel collection loop, read as one sequential pass in node
   * order: the matching nodes, each once.  Running in node order makes the
   * bag increasing; the runtime's bag itself fixes no order.
   */
  method CollectMatches<K, V(==)>(attrs: seq<map<K, V>>, key: K, value: V) returns (bag: seq<nat>)
    ensures |bag| == |MatchingBelow(attrs, key, value, |attrs|)|
    ensures forall i :: 0 <= i < |bag| ==> bag[i] < |attrs| && Matches(attrs[bag[i]], key, value)
    ensures forall i, j :: 0 <= i < j < |bag| ==> bag[i] < bag[j]
    ensures forall m :: 0 <= m < |attrs| && Matches(attrs[m], key, value) ==> m in bag
  {
    bag := [];
    var n := 0;
    while n < |attrs|
      invariant 0 <= n <= |attrs|
      invariant forall i :: 0 <= i < |bag| ==> bag[i] < n && Matches(attrs[bag[i]], key, value)
      invariant forall i, j :: 0 <= i < j < |bag| ==> bag[i] < bag[j]
      invariant forall m :: 0 <= m < n && Matches(attrs[m], key, value) ==> m in bag
      invariant |bag| == |MatchingBelow(attrs, key, value, n)|
    {
      MatchingBelowStep(attrs, key, value, n);
      if key in attrs[n] && attrs[n][key] == value {
        bag := bag + [n];
      }
      n := n + 1;
    }
  }
}
