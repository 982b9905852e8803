/**
 * The sequential logic of the Delaunay triangulation driver: the suffix
 * test on the input name, the per-element operator's discarding of
 * duplicate points and its choice of which new elements to push, and the
 * search for a free output name.
 *
 * Points ("tuples") are an abstract type compared only for equality.  Cavity
 * construction and retriangulation are not part of this model: the elements
 * a cavity update creates are passed to the operator as a parameter, and
 * membership of the element in the mesh is a boolean input.  The file
 * system is an oracle `fileExists` on path names.
 */
module Delaunay {

  datatype Option<T> = None | Some(value: T)

  // ---------------------------------------------------------------------
  // Names

  /** `ends_with`: does `str` end with `end`? */
  function EndsWith(str: string, end: string): (r: bool)
    ensures r <==> exists prefix :: str == prefix + end
  {
    if |end| > |str| then false
    else
      var diff := |str| - |end|;
      assert str[diff..] == end ==> str == str[..diff] + end;
      assert forall prefix :: str == prefix + end ==> str[diff..] == end;
      str[diff..] == end
  }

  /** The decimal text of i, as `sprintf("%d")` writes a non-negative int. */
  function Decimal(i: nat): (s: string)
    ensures |s| >= 1
    ensures forall k :: 0 <= k < |s| ==> '0' <= s[k] <= '9'
  {
    if i < 10 then [Digit(i)] else Decimal(i / 10) + [Digit(i % 10)]
  }

  function Digit(d: nat): (c: char)
    requires d < 10
    ensures '0' <= c <= '9'
  {
    ['0', '1', '2', '3', '4', '5', '6', '7', '8', '9'][d]
  }

  /** Reads back a string of decimal digits. */
  function ParseDecimal(s: string): nat
    requires forall k :: 0 <= k < |s| ==> '0' <= s[k] <= '9'
  {
    if s == [] then 0
    else ParseDecimal(s[..|s| - 1]) * 10 + (s[|s| - 1] as int - '0' as int)
  }

  lemma {:induction false} DecimalRoundTrip(i: nat)
    ensures ParseDecimal(Decimal(i)) == i
  {
    var s := Decimal(i);
    var d := i % 10;
    assert Digit(d) as int - '0' as int == d;
    if i >= 10 {
      DecimalRoundTrip(i / 10);
      assert s[..|s| - 1] == Decimal(i / 10);
    }
  }

  /** The input name without its ".node" suffix. */
  function Stem(filename: string): string
    requires |filename| >= 5
  {
    filename[..|filename| - 5]
  }

  /** Candidate output name number i: `<stem>.<i>`. */
  function OutputName(stem: string, i: nat): string
  {
    stem + "." + Decimal(i)
  }

  /** The point file a run with output name number i would write. */
  function NodeFile(stem: string, i: nat): string
  {
    OutputName(stem, i) + ".node"
  }

  /** Different numbers give different output names. */
  lemma OutputNameInjective(stem: string, i: nat, j: nat)
    requires OutputName(stem, i) == OutputName(stem, j)
    ensures i == j
  {
    var prefix := stem + ".";
    assert Decimal(i) == OutputName(stem, i)[|prefix|..];
    assert Decimal(j) == OutputName(stem, j)[|prefix|..];
    DecimalRoundTrip(i);
    DecimalRoundTrip(j);
  }

  /**
   * `gen_name`: the output name is the input name without ".node" plus
   * ".<i>", for the smallest i in 1..15 whose point file `<stem>.<i>.node`
   * does not exist yet.  When all fifteen exist the source aborts; here the
   * result is None.
   */
  method GenName(filename: string, fileExists: string -> bool) returns (name: Option<string>)
    requires EndsWith(filename, ".node")
    ensures filename == Stem(filename) + ".node"
    ensures name.None? <==> forall i :: 1 <= i < 16 ==> fileExists(NodeFile(Stem(filename), i))
    ensures name.Some? ==>
      exists i :: 1 <= i < 16 && name.value == OutputName(Stem(filename), i) &&
        !fileExists(NodeFile(Stem(filename), i)) &&
        forall k :: 1 <= k < i ==> fileExists(NodeFile(Stem(filename), k))
    ensures name.Some? ==> !fileExists(name.value + ".node")
  {
    var stem := filename[..|filename| - |".node"|];
    assert filename == stem + ".node" && stem == Stem(filename);
    var i := 1;
    while i < 16
      invariant 1 <= i <= 16
      invariant forall k :: 1 <= k < i ==> fileExists(NodeFile(stem, k))
    {
      var path := stem + "." + Decimal(i) + ".node";
      if fileExists(path) {
        i := i + 1;
        continue;
      }
      assert path == NodeFile(stem, i);
      return Some(stem + "." + Decimal(i));
    }
    return None;
  }

  // ---------------------------------------------------------------------
  // Elements and the refinement operator

  class Element<T(==)> {
    /** The element's three corner points. */
    const points: seq<T>
    /** The points not yet inserted that lie in this element. */
    var tuples: seq<T>

    constructor (p0: T, p1: T, p2: T, tuples: seq<T>)
      ensures points == [p0, p1, p2] && this.tuples == tuples
    {
      points := [p0, p1, p2];
      this.tuples := tuples;
    }

    /**
     * Discard duplicates: pop the last tuple while it equals one of the
     * element's points.
     */
    method TrimTuples()
      requires |points| == 3
      modifies this
      ensures tuples == Trimmed(old(tuples), points)
    {
      while tuples != []
        invariant Trimmed(tuples, points) == Trimmed(old(tuples), points)
        decreases |tuples|
      {
        var t := tuples[|tuples| - 1];
        ghost var before := tuples;
        var i := 0;
        while i < 3
          invariant 0 <= i <= 3 && tuples == before
          invariant forall k :: 0 <= k < i ==> points[k] != t
        {
          if points[i] == t {
            tuples := tuples[..|tuples| - 1];
            break;
          }
          i := i + 1;
        }
        if i == 3 {
          break;
        }
      }
    }
  }

  /** What the trimming loop leaves of `tuples`. */
  function Trimmed<T(==)>(tuples: seq<T>, points: seq<T>): seq<T>
  {
    if tuples != [] && tuples[|tuples| - 1] in points then Trimmed(tuples[..|tuples| - 1], points)
    else tuples
  }

  /**
   * Trimming only pops from the back, and only points of the element; it
   * stops at an empty list or at a last tuple that is none of the points.
   */
  lemma {:induction false} TrimmedSpec<T>(tuples: seq<T>, points: seq<T>)
    ensures var r := Trimmed(tuples, points);
      && |r| <= |tuples| && r == tuples[..|r|]
      && (forall k :: |r| <= k < |tuples| ==> tuples[k] in points)
      && (r == [] || r[|r| - 1] !in points)
  {
    if tuples != [] && tuples[|tuples| - 1] in points {
      var init := tuples[..|tuples| - 1];
      TrimmedSpec(init, points);
      var r := Trimmed(init, points);
      assert r == tuples[..|r|];
    }
  }

  /**
   * The elements to push, in iteration order: those that still hold
   * tuples.
   */
  function Refinable<T(==)>(nodes: seq<Element<T>>): seq<Element<T>>
    reads nodes
  {
    if nodes == [] then []
    else
      var last := nodes[|nodes| - 1];
      Refinable(nodes[..|nodes| - 1]) + (if last.tuples != [] then [last] else [])
  }

  /**
   * Each element with tuples is pushed as often as it occurs, and no other
   * element is pushed.
   */
  lemma {:induction false} RefinableCount<T>(nodes: seq<Element<T>>, x: Element<T>)
    ensures multiset(Refinable(nodes))[x] == if x.tuples != [] then multiset(nodes)[x] else 0
  {
    if nodes != [] {
      var init, last := nodes[..|nodes| - 1], nodes[|nodes| - 1];
      RefinableCount(init, x);
      assert nodes == init + [last];
      assert multiset(nodes) == multiset(init) + multiset{last};
    }
  }

  lemma RefinableMembers<T>(nodes: seq<Element<T>>, x: Element<T>)
    ensures x in Refinable(nodes) <==> x in nodes && x.tuples != []
  {
    RefinableCount(nodes, x);
    assert x in Refinable(nodes) <==> multiset(Refinable(nodes))[x] > 0;
    assert x in nodes <==> multiset(nodes)[x] > 0;
  }

  /** The push loop: push each new element that still holds tuples. */
  method PushRefinable<T(==)>(newNodes: seq<Element<T>>) returns (pushed: seq<Element<T>>)
    ensures pushed == Refinable(newNodes)
  {
    pushed := [];
    var k := 0;
    while k < |newNodes|
      invariant 0 <= k <= |newNodes|
      invariant pushed == Refinable(newNodes[..k])
    {
      var node := newNodes[k];
      if node.tuples != [] {
        pushed := pushed + [node];
      }
      assert newNodes[..k + 1][..k] == newNodes[..k];
      k := k + 1;
    }
    assert newNodes[..k] == newNodes;
  }

  /**
   * The operator applied to one element.  An element no longer in the mesh
   * is left alone.  Otherwise its duplicate tuples are discarded; if none
   * remain it is done, else a cavity is built and retriangulated (not
   * modelled: `newNodes` are the elements that update creates) and the new
   * elements that hold tuples are pushed as follow-on work.  The trimmed
   * list in the contract is the list as the cavity receives it; what build
   * and update then do to the element is not modelled.
   */
  method Process<T(==)>(item: Element<T>, inMesh: bool, newNodes: seq<Element<T>>)
    returns (built: bool, pushed: seq<Element<T>>)
    requires |item.points| == 3
    modifies item
    ensures !inMesh ==> item.tuples == old(item.tuples)
    ensures inMesh ==> item.tuples == Trimmed(old(item.tuples), item.points)
    ensures built <==> inMesh && item.tuples != []
    ensures pushed == if built then Refinable(newNodes) else []
  {
    if !inMesh {
      return false, [];
    }
    item.TrimTuples();
    if item.tuples == [] {
      return false, [];
    }
    built := true;
    pushed := PushRefinable(newNodes);
  }
}
