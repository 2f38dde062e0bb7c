/**
 * Canonical-computation labelling. A stack of D space-time diagrams of
 * the same shape L x T is an array3 indexed (diagram, space, time); the
 * vector of the D bits at (space s, time t) is the local Boolean function
 * observed there, and each distinct vector gets an integer label.
 */
module CCDiagrams {
  import opened Wrappers
  import opened Arith

  // ---------------------------------------------------------------------------
  // Vectors and the scan order
  // ---------------------------------------------------------------------------

  /** The slice stack[:, s, t]. */
  function CellVector(stack: array3<int>, s: nat, t: nat): (v: seq<int>)
    requires s < stack.Length1 && t < stack.Length2
    reads stack
    ensures |v| == stack.Length0
    ensures forall k :: 0 <= k < |v| ==> v[k] == stack[k, s, t]
  {
    seq(stack.Length0, k requires 0 <= k < stack.Length0 reads stack => stack[k, s, t])
  }

  /**
   * The vectors of the cells strictly before (s, t) in scan order: time in the
   * outer loop, space in the inner loop. (t, L) and (t + 1, 0) name the same
   * point of the scan; (T, 0) is its end.
   */
  ghost function ScanBefore(stack: array3<int>, t: nat, s: nat): seq<seq<int>>
    requires t <= stack.Length2 && s <= stack.Length1 && (s == 0 || t < stack.Length2)
    reads stack
    decreases t, s
  {
    if s > 0 then ScanBefore(stack, t, s - 1) + [CellVector(stack, s - 1, t)]
    else if t == 0 then []
    else ScanBefore(stack, t - 1, stack.Length1)
  }

  /** The vectors of all cells, in scan order. */
  ghost function Scan(stack: array3<int>): seq<seq<int>>
    reads stack
  {
    ScanBefore(stack, stack.Length2, 0)
  }

  /** Every cell's vector occurs in the scan. */
  lemma {:induction false} ScanBeforeContains(stack: array3<int>, t: nat, s: nat, t': nat, s': nat)
    requires t <= stack.Length2 && s <= stack.Length1 && (s == 0 || t < stack.Length2)
    requires s' < stack.Length1 && (t' < t || (t' == t && s' < s))
    ensures CellVector(stack, s', t') in ScanBefore(stack, t, s)
    decreases t, s
  {
    if s > 0 {
      if t' != t || s' != s - 1 {
        ScanBeforeContains(stack, t, s - 1, t', s');
      }
    } else {
      ScanBeforeContains(stack, t - 1, stack.Length1, t', s');
    }
  }

  // ---------------------------------------------------------------------------
  // First-discovery order
  // ---------------------------------------------------------------------------

  /** The distinct elements of vs, each at the place it first occurs. */
  function Distinct<T(==)>(vs: seq<T>): seq<T>
  {
    if vs == [] then []
    else
      var d := Distinct(vs[..|vs| - 1]);
      if vs[|vs| - 1] in d then d else d + [vs[|vs| - 1]]
  }

  /** The position of the first occurrence of v in u. */
  function IndexOf<T(==)>(u: seq<T>, v: T): (k: nat)
    requires v in u
    ensures k < |u| && u[k] == v && v !in u[..k]
  {
    if u[0] == v then 0 else 1 + IndexOf(u[1..], v)
  }

  /** No vector is listed twice. */
  lemma {:induction false} DistinctNoDuplicates<T>(vs: seq<T>)
    ensures forall i, j :: 0 <= i < j < |Distinct(vs)| ==> Distinct(vs)[i] != Distinct(vs)[j]
  {
    if vs != [] {
      DistinctNoDuplicates(vs[..|vs| - 1]);
    }
  }

  /** The distinct elements are exactly the elements. */
  lemma {:induction false} DistinctMembers<T>(vs: seq<T>, x: T)
    ensures x in Distinct(vs) <==> x in vs
  {
    if vs != [] {
      var n := |vs| - 1;
      DistinctMembers(vs[..n], x);
      assert vs == vs[..n] + [vs[n]];
    }
  }

  /** The distinct elements of a prefix are a prefix of the distinct elements. */
  lemma {:induction false} DistinctPrefix<T>(vs: seq<T>, p: nat)
    requires p <= |vs|
    ensures Distinct(vs[..p]) <= Distinct(vs)
    decreases |vs| - p
  {
    if p < |vs| {
      DistinctPrefix(vs, p + 1);
      var n := |vs[..p + 1]| - 1;
      assert vs[..p + 1][..n] == vs[..p];
    } else {
      assert vs[..p] == vs;
    }
  }

  /**
   * Labels follow first discovery: a vector seen for the first time at
   * position p gets the number of distinct vectors seen before p, and a vector
   * seen again gets a smaller label.
   */
  lemma DistinctDiscovery<T>(vs: seq<T>, p: nat)
    requires p < |vs|
    ensures vs[p] in Distinct(vs)
    ensures vs[p] !in vs[..p] ==> IndexOf(Distinct(vs), vs[p]) == |Distinct(vs[..p])|
    ensures vs[p] in vs[..p] ==> IndexOf(Distinct(vs), vs[p]) < |Distinct(vs[..p])|
  {
    DistinctMembers(vs, vs[p]);
    DistinctMembers(vs[..p], vs[p]);
    DistinctPrefix(vs, p);
    DistinctPrefix(vs, p + 1);
    var before, upTo, all := Distinct(vs[..p]), Distinct(vs[..p + 1]), Distinct(vs);
    assert vs[..p + 1][..p] == vs[..p];
    if vs[p] in vs[..p] {
      var k := IndexOf(before, vs[p]);
      assert all[k] == vs[p];
      assert IndexOf(all, vs[p]) <= k;
    } else {
      assert upTo == before + [vs[p]];
      assert all[|before|] == vs[p];
      DistinctNoDuplicates(vs);
      var k := IndexOf(all, vs[p]);
      assert k == |before|;
    }
  }

  // ---------------------------------------------------------------------------
  // CC_diagram
  // ---------------------------------------------------------------------------

  /**
   * The two dictionaries of CC_diagram agree with the list seen of the vectors
   * discovered so far: ccLabels maps each of them to its position, the function
   * table maps each position back, and nextLabel is the next unused position.
   */
  ghost predicate Tables(ccLabels: map<seq<int>, nat>, booleanFunctions: map<nat, seq<int>>, nextLabel: nat, seen: seq<seq<int>>)
  {
    (forall v :: v in ccLabels <==> v in seen) &&
    (forall v :: v in ccLabels ==> ccLabels[v] == IndexOf(seen, v)) &&
    (forall k :: k in booleanFunctions <==> 0 <= k < |seen|) &&
    (forall k :: k in booleanFunctions ==> booleanFunctions[k] == seen[k]) &&
    nextLabel == |seen|
  }

  /** The label cell (s, t) ends up with: the position of its vector among the distinct vectors of the scan. */
  ghost function FinalLabel(stack: array3<int>, s: nat, t: nat): nat
    requires s < stack.Length1 && t < stack.Length2
    reads stack
  {
    ScanBeforeContains(stack, stack.Length2, 0, t, s);
    DistinctMembers(Scan(stack), CellVector(stack, s, t));
    IndexOf(Distinct(Scan(stack)), CellVector(stack, s, t))
  }

  /** Every point of the scan sees a prefix of the whole scan. */
  lemma {:induction false} ScanPrefix(stack: array3<int>, t: nat, s: nat)
    requires t <= stack.Length2 && s <= stack.Length1 && (s == 0 || t < stack.Length2)
    ensures ScanBefore(stack, t, s) <= Scan(stack)
    decreases stack.Length2 - t, stack.Length1 - s
  {
    if s < stack.Length1 && t < stack.Length2 {
      ScanPrefix(stack, t, s + 1);
      assert ScanBefore(stack, t, s + 1) == ScanBefore(stack, t, s) + [CellVector(stack, s, t)];
    } else if t < stack.Length2 {
      ScanPrefix(stack, t + 1, 0);
    }
  }

  /**
   * The label a cell gets when it is scanned, its position among the distinct
   * vectors seen so far, is already its position among those of the whole scan.
   */
  lemma LabelIsFinal(stack: array3<int>, t: nat, s: nat)
    requires t < stack.Length2 && s < stack.Length1
    ensures CellVector(stack, s, t) in Distinct(ScanBefore(stack, t, s + 1))
    ensures CellVector(stack, s, t) in Distinct(Scan(stack))
    ensures IndexOf(Distinct(ScanBefore(stack, t, s + 1)), CellVector(stack, s, t)) == FinalLabel(stack, s, t)
  {
    var v, scanned, all := CellVector(stack, s, t), ScanBefore(stack, t, s + 1), Scan(stack);
    ScanPrefix(stack, t, s + 1);
    assert all[..|scanned|] == scanned;
    DistinctPrefix(all, |scanned|);
    assert scanned[|scanned| - 1] == v;
    DistinctMembers(scanned, v);
    IndexOfPrefix(Distinct(scanned), Distinct(all), v);
  }

  /** One more cell scanned: its vector is added to the distinct list unless already there. */
  lemma DistinctScanStep(stack: array3<int>, t: nat, s: nat)
    requires t < stack.Length2 && s < stack.Length1
    ensures Distinct(ScanBefore(stack, t, s + 1)) ==
      var seen, v := Distinct(ScanBefore(stack, t, s)), CellVector(stack, s, t);
      if v in seen then seen else seen + [v]
  {
    var scanned := ScanBefore(stack, t, s + 1);
    assert scanned[..|scanned| - 1] == ScanBefore(stack, t, s);
  }

  /** Extending a list keeps the first positions of what it already held. */
  lemma IndexOfPrefix<T>(u: seq<T>, u': seq<T>, w: T)
    requires u <= u' && w in u
    ensures w in u' && IndexOf(u', w) == IndexOf(u, w)
  {
    var k := IndexOf(u, w);
    assert u'[k] == w;
    assert u'[..k] == u[..k];
  }

  /** Recording a new vector under the next label keeps the tables in step with the list. */
  lemma TablesAdd(ccLabels: map<seq<int>, nat>, booleanFunctions: map<nat, seq<int>>, nextLabel: nat,
                  seen: seq<seq<int>>, v: seq<int>)
    requires Tables(ccLabels, booleanFunctions, nextLabel, seen) && v !in seen
    ensures Tables(ccLabels[v := nextLabel], booleanFunctions[nextLabel := v], nextLabel + 1, seen + [v])
  {
    var seen' := seen + [v];
    forall w | w in seen ensures IndexOf(seen', w) == IndexOf(seen, w) {
      IndexOfPrefix(seen, seen', w);
    }
    assert IndexOf(seen', v) == |seen|;
  }

  /**
   * The dictionary step of CC_diagram for one vector: a vector already seen
   * keeps its label, a new one gets the next unused label and is recorded in
   * both tables.
   */
  method LabelOf(ccLabels: map<seq<int>, nat>, booleanFunctions: map<nat, seq<int>>, nextLabel: nat,
                 ghost seen: seq<seq<int>>, ghost seen': seq<seq<int>>, v: seq<int>)
    returns (cellLabel: nat, ccLabels': map<seq<int>, nat>, booleanFunctions': map<nat, seq<int>>, nextLabel': nat)
    requires Tables(ccLabels, booleanFunctions, nextLabel, seen)
    requires seen' == if v in seen then seen else seen + [v]
    ensures Tables(ccLabels', booleanFunctions', nextLabel', seen')
    ensures v in seen' && cellLabel == IndexOf(seen', v)
    ensures v !in seen ==> cellLabel == |seen|
  {
    if v in ccLabels {
      cellLabel := ccLabels[v];
      ccLabels', booleanFunctions', nextLabel' := ccLabels, booleanFunctions, nextLabel;
    } else {
      TablesAdd(ccLabels, booleanFunctions, nextLabel, seen, v);
      cellLabel := nextLabel;
      ccLabels' := ccLabels[v := nextLabel];
      booleanFunctions' := booleanFunctions[nextLabel := v];
      nextLabel' := nextLabel + 1;
    }
  }

  /** The label CC_diagram gives cell (s, t), and the tables once that cell is scanned. */
  method ScanCell(stack: array3<int>, ccLabels: map<seq<int>, nat>, booleanFunctions: map<nat, seq<int>>,
                  nextLabel: nat, t: nat, s: nat)
    returns (cellLabel: nat, ccLabels': map<seq<int>, nat>, booleanFunctions': map<nat, seq<int>>, nextLabel': nat)
    requires t < stack.Length2 && s < stack.Length1
    requires Tables(ccLabels, booleanFunctions, nextLabel, Distinct(ScanBefore(stack, t, s)))
    ensures Tables(ccLabels', booleanFunctions', nextLabel', Distinct(ScanBefore(stack, t, s + 1)))
    ensures cellLabel == FinalLabel(stack, s, t)
  {
    ghost var seen := Distinct(ScanBefore(stack, t, s));
    ghost var seen' := Distinct(ScanBefore(stack, t, s + 1));
    var ccLabel := CellVector(stack, s, t);
    DistinctScanStep(stack, t, s);
    cellLabel, ccLabels', booleanFunctions', nextLabel' := LabelOf(ccLabels, booleanFunctions, nextLabel, seen, seen', ccLabel);
    LabelIsFinal(stack, t, s);
  }

  /** The inner loop of CC_diagram: labels the cells of time step t, top to bottom. */
  method LabelColumn(stack: array3<int>, diagram: array2<int>, ccLabels: map<seq<int>, nat>,
                     booleanFunctions: map<nat, seq<int>>, nextLabel: nat, t: nat)
    returns (ccLabels': map<seq<int>, nat>, booleanFunctions': map<nat, seq<int>>, nextLabel': nat)
    requires diagram.Length0 == stack.Length1 && diagram.Length1 == stack.Length2
    requires t < stack.Length2
    requires Tables(ccLabels, booleanFunctions, nextLabel, Distinct(ScanBefore(stack, t, 0)))
    modifies diagram
    ensures Tables(ccLabels', booleanFunctions', nextLabel', Distinct(ScanBefore(stack, t + 1, 0)))
    ensures forall s' :: 0 <= s' < stack.Length1 ==> diagram[s', t] == FinalLabel(stack, s', t)
    ensures forall s', t' :: 0 <= s' < stack.Length1 && 0 <= t' < stack.Length2 && t' != t ==>
      diagram[s', t'] == old(diagram[s', t'])
  {
    ghost var labels := seq(stack.Length1, s' requires 0 <= s' < stack.Length1 reads stack => FinalLabel(stack, s', t));
    ghost var seen := seq(stack.Length1 + 1, s' requires 0 <= s' <= stack.Length1 reads stack => Distinct(ScanBefore(stack, t, s')));
    ccLabels', booleanFunctions', nextLabel' := ccLabels, booleanFunctions, nextLabel;
    for s := 0 to stack.Length1
      invariant Tables(ccLabels', booleanFunctions', nextLabel', seen[s])
      invariant forall s' :: 0 <= s' < s ==> diagram[s', t] == labels[s']
      invariant forall s', t' :: 0 <= s' < stack.Length1 && 0 <= t' < stack.Length2 && t' != t ==>
        diagram[s', t'] == old(diagram[s', t'])
    {
      var cellLabel;
      cellLabel, ccLabels', booleanFunctions', nextLabel' := ScanCell(stack, ccLabels', booleanFunctions', nextLabel', t, s);
      assert cellLabel == labels[s];
      assert Tables(ccLabels', booleanFunctions', nextLabel', seen[s + 1]);
      diagram[s, t] := cellLabel;
      assert forall s' :: 0 <= s' < s + 1 ==> diagram[s', t] == labels[s'];
    }
    assert ScanBefore(stack, t + 1, 0) == ScanBefore(stack, t, stack.Length1);
  }

  /**
   * CC_diagram: scans time (outer) and space (inner); a vector met for the first
   * time gets the next unused label and is recorded in the function table, a
   * vector met again reuses its label. The labels are the positions in
   * Distinct(Scan(stack)), the table maps label k to its k-th entry.
   */
  method CCDiagram(stack: array3<int>) returns (diagram: array2<int>, booleanFunctions: map<nat, seq<int>>)
    ensures diagram.Length0 == stack.Length1 && diagram.Length1 == stack.Length2
    ensures forall k :: k in booleanFunctions <==> 0 <= k < |Distinct(Scan(stack))|
    ensures forall k :: k in booleanFunctions ==> booleanFunctions[k] == Distinct(Scan(stack))[k]
    ensures forall s, t :: 0 <= s < stack.Length1 && 0 <= t < stack.Length2 ==>
      CellVector(stack, s, t) in Distinct(Scan(stack)) &&
      diagram[s, t] == IndexOf(Distinct(Scan(stack)), CellVector(stack, s, t))
    ensures forall s, t :: 0 <= s < stack.Length1 && 0 <= t < stack.Length2 ==>
      diagram[s, t] in booleanFunctions && booleanFunctions[diagram[s, t]] == CellVector(stack, s, t)
    ensures forall s, t, s', t' :: 0 <= s < stack.Length1 && 0 <= t < stack.Length2 && 0 <= s' < stack.Length1 && 0 <= t' < stack.Length2 ==>
      (diagram[s, t] == diagram[s', t'] <==> CellVector(stack, s, t) == CellVector(stack, s', t'))
  {
    var size, length := stack.Length1, stack.Length2;
    diagram := new int[size, length];
    var ccLabels: map<seq<int>, nat> := map[];
    booleanFunctions := map[];
    var nextLabel: nat := 0;
    for t := 0 to length
      invariant Tables(ccLabels, booleanFunctions, nextLabel, Distinct(ScanBefore(stack, t, 0)))
      invariant forall s', t' :: 0 <= s' < size && 0 <= t' < t ==> diagram[s', t'] == FinalLabel(stack, s', t')
    {
      ccLabels, booleanFunctions, nextLabel := LabelColumn(stack, diagram, ccLabels, booleanFunctions, nextLabel, t);
    }
    assert ScanBefore(stack, length, 0) == Scan(stack);
    LabelledAll(stack, diagram, ccLabels, booleanFunctions, nextLabel);
  }

  /** Once the whole scan is labelled, the diagram and the function table invert each other. */
  lemma LabelledAll(stack: array3<int>, diagram: array2<int>, ccLabels: map<seq<int>, nat>,
                    booleanFunctions: map<nat, seq<int>>, nextLabel: nat)
    requires diagram.Length0 == stack.Length1 && diagram.Length1 == stack.Length2
    requires Tables(ccLabels, booleanFunctions, nextLabel, Distinct(Scan(stack)))
    requires forall s, t :: 0 <= s < stack.Length1 && 0 <= t < stack.Length2 ==> diagram[s, t] == FinalLabel(stack, s, t)
    ensures forall k :: k in booleanFunctions <==> 0 <= k < |Distinct(Scan(stack))|
    ensures forall k :: k in booleanFunctions ==> booleanFunctions[k] == Distinct(Scan(stack))[k]
    ensures forall s, t :: 0 <= s < stack.Length1 && 0 <= t < stack.Length2 ==>
      CellVector(stack, s, t) in Distinct(Scan(stack)) &&
      diagram[s, t] == IndexOf(Distinct(Scan(stack)), CellVector(stack, s, t))
    ensures forall s, t :: 0 <= s < stack.Length1 && 0 <= t < stack.Length2 ==>
      diagram[s, t] in booleanFunctions && booleanFunctions[diagram[s, t]] == CellVector(stack, s, t)
    ensures forall s, t, s', t' :: 0 <= s < stack.Length1 && 0 <= t < stack.Length2 && 0 <= s' < stack.Length1 && 0 <= t' < stack.Length2 ==>
      (diagram[s, t] == diagram[s', t'] <==> CellVector(stack, s, t) == CellVector(stack, s', t'))
  {
    var all := Distinct(Scan(stack));
    forall s, t | 0 <= s < stack.Length1 && 0 <= t < stack.Length2
      ensures CellVector(stack, s, t) in all && diagram[s, t] == IndexOf(all, CellVector(stack, s, t))
    {
      assert diagram[s, t] == FinalLabel(stack, s, t);
    }
    forall s, t, s', t' | 0 <= s < stack.Length1 && 0 <= t < stack.Length2 && 0 <= s' < stack.Length1 && 0 <= t' < stack.Length2
      ensures diagram[s, t] == diagram[s', t'] <==> CellVector(stack, s, t) == CellVector(stack, s', t')
    {
      var k, k' := IndexOf(all, CellVector(stack, s, t)), IndexOf(all, CellVector(stack, s', t'));
      assert all[k] == CellVector(stack, s, t) && all[k'] == CellVector(stack, s', t');
    }
  }

  // ---------------------------------------------------------------------------
  // create_CC_labels: the universal table
  // ---------------------------------------------------------------------------

  /**
   * The i-th tuple of itertools.product(states, repeat=n): i written in base
   * |states| with n digits, the last position varying fastest.
   */
  function Digits(states: seq<int>, n: nat, i: nat): (v: seq<int>)
    requires |states| > 0
    ensures |v| == n
    ensures forall k :: 0 <= k < n ==> v[k] in states
  {
    if n == 0 then [] else Digits(states, n - 1, i / |states|) + [states[i % |states|]]
  }

  /** itertools.product(states, repeat=n) as a sequence of vectors. */
  function Product(states: seq<int>, n: nat): (all: seq<seq<int>>)
    ensures |all| == Pow(|states|, n)
  {
    if |states| == 0 then (if n == 0 then [[]] else [])
    else seq(Pow(|states|, n), i requires 0 <= i < Pow(|states|, n) => Digits(states, n, i))
  }

  /** Appending a digit to the tuple at i gives the tuple at i * |states| + j. */
  lemma DigitsAppend(states: seq<int>, n: nat, i: nat, j: nat)
    requires j < |states|
    ensures Digits(states, n + 1, i * |states| + j) == Digits(states, n, i) + [states[j]]
  {
    DivModOfSum(i, j, |states|);
  }

  /**
   * The enumeration order: the tuple at i * |states| + j is the tuple at i with
   * states[j] appended, so the first position varies slowest.
   */
  lemma ProductStep(states: seq<int>, n: nat, i: nat, j: nat)
    requires i < Pow(|states|, n) && j < |states|
    ensures i * |states| + j < Pow(|states|, n + 1)
    ensures Product(states, n + 1)[i * |states| + j] == Product(states, n)[i] + [states[j]]
  {
    var m := |states|;
    var idx := i * m + j;
    PowStep(m, n);
    AppendDigitBelow(i, j, m, Pow(m, n));
    ProductAt(states, n + 1, idx);
    ProductAt(states, n, i);
    DigitsAppend(states, n, i, j);
  }

  /** Entry k of the tuple at i is digit k of i in base |states|, most significant first. */
  lemma {:induction false} DigitsAt(states: seq<int>, n: nat, i: nat, k: nat)
    requires |states| > 0 && k < n
    ensures Digits(states, n, i)[k] == states[i / Pow(|states|, n - 1 - k) % |states|]
  {
    var m := |states|;
    var v := Digits(states, n, i);
    if k < n - 1 {
      var e := n - 2 - k;
      assert v[k] == Digits(states, n - 1, i / m)[k];
      DigitsAt(states, n - 1, i / m, k);
      PowStep(m, e);
      DivDiv(i, m, Pow(m, e));
      assert i / m / Pow(m, e) == i / Pow(m, e + 1);
    } else {
      assert Pow(m, n - 1 - k) == 1;
    }
  }

  /**
   * The enumeration in closed form: entry k of the i-th tuple is the state
   * indexed by digit k of i in base |states|.
   */
  lemma ProductDigit(states: seq<int>, n: nat, i: nat, k: nat)
    requires |states| > 0 && i < Pow(|states|, n) && k < n
    ensures Product(states, n)[i][k] == states[i / Pow(|states|, n - 1 - k) % |states|]
  {
    ProductAt(states, n, i);
    DigitsAt(states, n, i, k);
  }

  /** Over a non-empty list of states, the enumeration's i-th entry is Digits. */
  lemma ProductAt(states: seq<int>, n: nat, i: nat)
    requires |states| > 0 && i < Pow(|states|, n)
    ensures Product(states, n)[i] == Digits(states, n, i)
  {
  }

  /** The position in the enumeration of a vector drawn from states. */
  function Rank(states: seq<int>, v: seq<int>): nat
    requires forall k :: 0 <= k < |v| ==> v[k] in states
  {
    if v == [] then 0 else Rank(states, v[..|v| - 1]) * |states| + IndexOf(states, v[|v| - 1])
  }

  lemma {:induction false} RankDigits(states: seq<int>, v: seq<int>)
    requires |states| > 0
    requires forall k :: 0 <= k < |v| ==> v[k] in states
    ensures Rank(states, v) < Pow(|states|, |v|)
    ensures Digits(states, |v|, Rank(states, v)) == v
  {
    if v != [] {
      var n := |v| - 1;
      var m := |states|;
      var u := v[..n];
      RankDigits(states, u);
      var q, j := Rank(states, u), IndexOf(states, v[n]);
      assert Rank(states, v) == q * m + j;
      PowStep(m, n);
      AppendDigitBelow(q, j, m, Pow(m, n));
      calc {
        Digits(states, |v|, Rank(states, v));
        Digits(states, n + 1, q * m + j);
        { DigitsAppend(states, n, q, j); }
        Digits(states, n, q) + [states[j]];
        u + [v[n]];
        { assert v == u + [v[n]]; }
        v;
      }
    }
  }

  /** The enumeration lists exactly the vectors of length n over states. */
  lemma ProductMembers(states: seq<int>, n: nat, v: seq<int>)
    ensures v in Product(states, n) <==> |v| == n && forall k :: 0 <= k < n ==> v[k] in states
  {
    if |states| == 0 {
      if n == 0 {
        assert Product(states, n) == [[]];
      }
    } else {
      if v in Product(states, n) {
        var i :| 0 <= i < |Product(states, n)| && Product(states, n)[i] == v;
      }
      if |v| == n && forall k :: 0 <= k < n ==> v[k] in states {
        RankDigits(states, v);
        assert Product(states, n)[Rank(states, v)] == v;
      }
    }
  }

  /** Over pairwise distinct states, Rank undoes Digits. */
  lemma {:induction false} RankOfDigits(states: seq<int>, n: nat, i: nat)
    requires |states| > 0
    requires forall a, b :: 0 <= a < b < |states| ==> states[a] != states[b]
    requires i < Pow(|states|, n)
    ensures forall k :: 0 <= k < n ==> Digits(states, n, i)[k] in states
    ensures Rank(states, Digits(states, n, i)) == i
  {
    if n > 0 {
      var m := |states|;
      var q, r := i / m, i % m;
      DivModIdentity(i, m);
      PowStep(m, n - 1);
      DivBelow(i, m, Pow(m, n - 1));
      RankOfDigits(states, n - 1, q);
      var u := Digits(states, n - 1, q);
      calc {
        Rank(states, Digits(states, n, i));
        { DigitsAppend(states, n - 1, q, r); }
        Rank(states, u + [states[r]]);
        { RankAppend(states, u, r); }
        Rank(states, u) * m + r;
        i;
      }
    }
  }

  /** Appending states[r] to a vector appends the digit r to its rank. */
  lemma RankAppend(states: seq<int>, u: seq<int>, r: nat)
    requires forall a, b :: 0 <= a < b < |states| ==> states[a] != states[b]
    requires forall k :: 0 <= k < |u| ==> u[k] in states
    requires r < |states|
    ensures forall k :: 0 <= k < |u| + 1 ==> (u + [states[r]])[k] in states
    ensures Rank(states, u + [states[r]]) == Rank(states, u) * |states| + r
  {
    var w := u + [states[r]];
    assert w[..|w| - 1] == u;
    SameState(states, IndexOf(states, states[r]), r);
  }

  /** Over pairwise distinct states the enumeration has no repetition. */
  lemma DigitsInjective(states: seq<int>, n: nat, i: nat, j: nat)
    requires |states| > 0
    requires forall a, b :: 0 <= a < b < |states| ==> states[a] != states[b]
    requires i < Pow(|states|, n) && j < Pow(|states|, n)
    requires Digits(states, n, i) == Digits(states, n, j)
    ensures i == j
  {
    RankOfDigits(states, n, i);
    RankOfDigits(states, n, j);
  }

  /** Among pairwise distinct states, equal entries sit at equal positions. */
  lemma SameState(states: seq<int>, a: nat, b: nat)
    requires forall a, b :: 0 <= a < b < |states| ==> states[a] != states[b]
    requires a < |states| && b < |states| && states[a] == states[b]
    ensures a == b
  {
  }

  /** With states [0, 1] the label of a vector is its big-endian binary value. */
  function BinaryValue(v: seq<int>): int
  {
    if v == [] then 0 else 2 * BinaryValue(v[..|v| - 1]) + v[|v| - 1]
  }

  lemma {:induction false} BinaryDigits(n: nat, i: nat)
    requires i < Pow(2, n)
    ensures BinaryValue(Digits([0, 1], n, i)) == i
  {
    if n > 0 {
      BinaryDigits(n - 1, i / 2);
      var v := Digits([0, 1], n, i);
      assert v[..n - 1] == Digits([0, 1], n - 1, i / 2);
    }
  }

  /**
   * The dictionary built by storing each entry of xs under its position, in
   * order: every entry is a key, and a repeated entry keeps its last position.
   */
  method PositionTable<T>(xs: seq<T>) returns (table: map<T, nat>)
    ensures forall v :: v in table <==> v in xs
    ensures forall v :: v in table ==>
      table[v] < |xs| && xs[table[v]] == v && forall j :: table[v] < j < |xs| ==> xs[j] != v
    ensures forall u, v :: u in table && v in table && table[u] == table[v] ==> u == v
  {
    table := map[];
    for index := 0 to |xs|
      invariant forall v :: v in table <==> v in xs[..index]
      invariant forall v :: v in table ==>
        table[v] < index && xs[table[v]] == v && forall j :: table[v] < j < index ==> xs[j] != v
    {
      assert xs[..index + 1] == xs[..index] + [xs[index]];
      table := table[xs[index] := index];
    }
    assert xs[..|xs|] == xs;
  }

  /**
   * create_CC_labels: the list of all vectors is built first, then each vector
   * is stored with its position in that list. A vector listed twice (possible
   * only when states repeats an entry) keeps its last position.
   */
  method CreateCCLabels(inputSetSize: nat, caStates: seq<int>) returns (ccLabels: map<seq<int>, nat>)
    ensures forall v :: v in ccLabels <==> |v| == inputSetSize && forall k :: 0 <= k < |v| ==> v[k] in caStates
    ensures forall v :: v in ccLabels ==>
      ccLabels[v] < |Product(caStates, inputSetSize)| && Product(caStates, inputSetSize)[ccLabels[v]] == v &&
      forall j :: ccLabels[v] < j < |Product(caStates, inputSetSize)| ==> Product(caStates, inputSetSize)[j] != v
    ensures Injective(ccLabels)
    ensures (forall a, b :: 0 <= a < b < |caStates| ==> caStates[a] != caStates[b]) ==>
      forall i :: 0 <= i < |Product(caStates, inputSetSize)| ==>
        Product(caStates, inputSetSize)[i] in ccLabels && ccLabels[Product(caStates, inputSetSize)[i]] == i
    ensures caStates == [0, 1] ==> forall v :: v in ccLabels ==> ccLabels[v] == BinaryValue(v)
  {
    var allCCs := Product(caStates, inputSetSize);
    ccLabels := PositionTable(allCCs);
    forall v ensures v in ccLabels <==> |v| == inputSetSize && forall k :: 0 <= k < |v| ==> v[k] in caStates {
      ProductMembers(caStates, inputSetSize, v);
    }
    if forall a, b :: 0 <= a < b < |caStates| ==> caStates[a] != caStates[b] {
      forall i | 0 <= i < |allCCs| ensures allCCs[i] in ccLabels && ccLabels[allCCs[i]] == i {
        var k := ccLabels[allCCs[i]];
        if k != i {
          DigitsInjective(caStates, inputSetSize, i, k);
        }
      }
    }
    if caStates == [0, 1] {
      forall v | v in ccLabels ensures ccLabels[v] == BinaryValue(v) {
        var k := ccLabels[v];
        BinaryDigits(inputSetSize, k);
      }
    }
  }

  // ---------------------------------------------------------------------------
  // CC_diagram_consistent_labels
  // ---------------------------------------------------------------------------

  /** The lookup of a vector absent from the universal table (a missing dictionary key). */
  datatype LabelError = UnknownFunction(vector: seq<int>)

  /** The labels of two cells agree only when their vectors do. */
  predicate Injective(ccLabels: map<seq<int>, nat>)
  {
    forall u, v :: u in ccLabels && v in ccLabels && ccLabels[u] == ccLabels[v] ==> u == v
  }

  /**
   * CC_diagram_consistent_labels: the same scan, each cell labelled by looking
   * its vector up in the given table; the first vector (in scan order) that the
   * table lacks stops the scan with an error, and no label is ever invented.
   */
  method CCDiagramConsistentLabels(stack: array3<int>, ccLabels: map<seq<int>, nat>)
    returns (r: Result<array2<int>, LabelError>)
    ensures r.Success? <==>
      forall s, t :: 0 <= s < stack.Length1 && 0 <= t < stack.Length2 ==> CellVector(stack, s, t) in ccLabels
    ensures r.Success? ==>
      r.value.Length0 == stack.Length1 && r.value.Length1 == stack.Length2 &&
      forall s, t :: 0 <= s < stack.Length1 && 0 <= t < stack.Length2 ==>
        CellVector(stack, s, t) in ccLabels && r.value[s, t] == ccLabels[CellVector(stack, s, t)]
    ensures r.Failure? ==>
      exists s, t :: 0 <= s < stack.Length1 && 0 <= t < stack.Length2 &&
        r.error == UnknownFunction(CellVector(stack, s, t)) && CellVector(stack, s, t) !in ccLabels &&
        forall s', t' :: 0 <= s' < stack.Length1 && 0 <= t' && (t' < t || (t' == t && s' < s)) ==> CellVector(stack, s', t') in ccLabels
    ensures r.Success? && Injective(ccLabels) ==>
      forall s, t, s', t' :: 0 <= s < stack.Length1 && 0 <= t < stack.Length2 && 0 <= s' < stack.Length1 && 0 <= t' < stack.Length2 ==>
        (r.value[s, t] == r.value[s', t'] <==> CellVector(stack, s, t) == CellVector(stack, s', t'))
  {
    var size, length := stack.Length1, stack.Length2;
    var diagram := new int[size, length];
    for t := 0 to length
      invariant forall s', t' :: 0 <= s' < size && 0 <= t' < t ==>
        CellVector(stack, s', t') in ccLabels && diagram[s', t'] == ccLabels[CellVector(stack, s', t')]
    {
      for s := 0 to size
        invariant forall s', t' :: 0 <= s' < size && 0 <= t' < t ==>
          CellVector(stack, s', t') in ccLabels && diagram[s', t'] == ccLabels[CellVector(stack, s', t')]
        invariant forall s' :: 0 <= s' < s ==>
          CellVector(stack, s', t) in ccLabels && diagram[s', t] == ccLabels[CellVector(stack, s', t)]
      {
        var ccLabel := CellVector(stack, s, t);
        if ccLabel !in ccLabels {
          assert forall s', t' :: 0 <= s' < size && 0 <= t' && (t' < t || (t' == t && s' < s)) ==> CellVector(stack, s', t') in ccLabels;
          return Failure(UnknownFunction(ccLabel));
        }
        diagram[s, t] := ccLabels[ccLabel];
      }
    }
    return Success(diagram);
  }
}
