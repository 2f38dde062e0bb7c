/**
 * Elementary cellular automata under Wolfram's rule numbering: the rule
 * mapping of a code, the table of neighbourhood patterns that produce a 1,
 * and the simulator that builds a space-time diagram on a ring.
 */
module ECA {
  import opened Arith
  import opened Diagrams

  // ---------------------------------------------------------------------------
  // Bits of a Wolfram code
  // ---------------------------------------------------------------------------

  /** Bit j of c, counting from the least significant bit (c & 2^j != 0). */
  function Bit(c: nat, j: nat): bool
  {
    if j == 0 then c % 2 == 1 else Bit(c / 2, j - 1)
  }

  /** Number of set bits of c. */
  function Popcount(c: nat): nat
  {
    if c == 0 then 0 else c % 2 + Popcount(c / 2)
  }

  /** The n low bits of c, most significant first. */
  function Flags(c: nat, n: nat): (m: seq<bool>)
    ensures |m| == n
  {
    seq(n, i requires 0 <= i < n => Bit(c, n - 1 - i))
  }

  /** A sequence of flags read as a big-endian binary numeral. */
  function FromFlags(m: seq<bool>): nat
  {
    if m == [] then 0 else 2 * FromFlags(m[..|m| - 1]) + (if m[|m| - 1] then 1 else 0)
  }

  /** Number of true entries. */
  function CountTrue(m: seq<bool>): nat
  {
    if m == [] then 0 else CountTrue(m[..|m| - 1]) + (if m[|m| - 1] then 1 else 0)
  }

  lemma FlagsStep(c: nat, n: nat)
    ensures Flags(c, n + 1) == Flags(c / 2, n) + [c % 2 == 1]
  {
    var lhs, rhs := Flags(c, n + 1), Flags(c / 2, n) + [c % 2 == 1];
    forall i | 0 <= i < n + 1
      ensures lhs[i] == rhs[i]
    {
      if i < n {
        assert lhs[i] == Bit(c, n - i) == Bit(c / 2, n - 1 - i);
      } else {
        assert lhs[i] == Bit(c, 0);
      }
    }
  }

  /** Reading the n low bits back as a numeral gives c when c fits in n bits. */
  lemma {:induction false} FlagsRoundTrip(c: nat, n: nat)
    requires c < Pow(2, n)
    ensures FromFlags(Flags(c, n)) == c
  {
    if n > 0 {
      FlagsStep(c, n - 1);
      FlagsRoundTrip(c / 2, n - 1);
      var m := Flags(c, n);
      assert m[..n - 1] == Flags(c / 2, n - 1);
    }
  }

  /** Every flag sequence is the bit pattern of its own value. */
  lemma {:induction false} FromFlagsRoundTrip(m: seq<bool>)
    ensures FromFlags(m) < Pow(2, |m|)
    ensures Flags(FromFlags(m), |m|) == m
  {
    if m != [] {
      var n := |m| - 1;
      var v := FromFlags(m[..n]);
      FromFlagsRoundTrip(m[..n]);
      var c := FromFlags(m);
      assert c == 2 * v + (if m[n] then 1 else 0);
      assert c / 2 == v && (c % 2 == 1 <==> m[n]);
      FlagsStep(c, n);
      assert m == m[..n] + [m[n]];
    }
  }

  /** The number of set flags among the n low bits of c is its popcount. */
  lemma {:induction false} FlagsPopcount(c: nat, n: nat)
    requires c < Pow(2, n)
    ensures CountTrue(Flags(c, n)) == Popcount(c)
  {
    if n > 0 {
      FlagsStep(c, n - 1);
      FlagsPopcount(c / 2, n - 1);
      var m := Flags(c, n);
      assert m[..n - 1] == Flags(c / 2, n - 1);
    }
  }

  /**
   * ECA_rule_mapping: entry i is true exactly when bit 7 - i of the code is
   * set, i.e. the little-endian bit list of the code reversed, so that entry
   * i belongs to the i-th neighbourhood in Wolfram's order.
   */
  function RuleMapping(code: int): (m: seq<bool>)
    requires 0 <= code <= 255
    ensures |m| == 8
    ensures forall i :: 0 <= i < 8 ==> (m[i] <==> Bit(code, 7 - i))
    ensures FromFlags(m) == code
    ensures CountTrue(m) == Popcount(code)
  {
    FlagsRoundTrip(code, 8);
    FlagsPopcount(code, 8);
    Flags(code, 8)
  }

  /** Distinct codes have distinct mappings, and every 8-flag mapping is the mapping of some code. */
  lemma RuleMappingBijective(m: seq<bool>)
    requires |m| == 8
    ensures 0 <= FromFlags(m) <= 255 && RuleMapping(FromFlags(m)) == m
  {
    FromFlagsRoundTrip(m);
  }

  // ---------------------------------------------------------------------------
  // The rule array
  // ---------------------------------------------------------------------------

  /**
   * A neighbourhood triple as stored in the rule array: slot 0, 1, 2. The
   * table below lists (left, centre, right) in these slots; the simulator
   * fills them with (right neighbour, self, left neighbour).
   */
  datatype Triple = Triple(first: int, second: int, third: int)

  /** The index of a binary triple read as a 3-bit numeral, slot 0 most significant. */
  function Value(p: Triple): int
  {
    4 * p.first + 2 * p.second + p.third
  }

  predicate IsBinaryTriple(p: Triple)
  {
    (p.first == 0 || p.first == 1) && (p.second == 0 || p.second == 1) && (p.third == 0 || p.third == 1)
  }

  /** The eight neighbourhoods in Wolfram's order, (1,1,1) down to (0,0,0). */
  const NEIGHBOURHOOD_STATES: seq<Triple> := [
    Triple(1, 1, 1), Triple(1, 1, 0), Triple(1, 0, 1), Triple(1, 0, 0),
    Triple(0, 1, 1), Triple(0, 1, 0), Triple(0, 0, 1), Triple(0, 0, 0)
  ]

  /** The table entry by entry. */
  lemma NeighbourhoodStatesListed()
    ensures |NEIGHBOURHOOD_STATES| == 8
    ensures NEIGHBOURHOOD_STATES[0] == Triple(1, 1, 1) && NEIGHBOURHOOD_STATES[1] == Triple(1, 1, 0)
    ensures NEIGHBOURHOOD_STATES[2] == Triple(1, 0, 1) && NEIGHBOURHOOD_STATES[3] == Triple(1, 0, 0)
    ensures NEIGHBOURHOOD_STATES[4] == Triple(0, 1, 1) && NEIGHBOURHOOD_STATES[5] == Triple(0, 1, 0)
    ensures NEIGHBOURHOOD_STATES[6] == Triple(0, 0, 1) && NEIGHBOURHOOD_STATES[7] == Triple(0, 0, 0)
  {
  }

  /** Entry i of the table is the binary triple whose Value is 7 - i. */
  lemma NeighbourhoodStatesValues()
    ensures |NEIGHBOURHOOD_STATES| == 8
    ensures forall i :: 0 <= i < 8 ==> IsBinaryTriple(NEIGHBOURHOOD_STATES[i]) && Value(NEIGHBOURHOOD_STATES[i]) == 7 - i
  {
    NeighbourhoodStatesListed();
  }

  /** Every binary triple is listed, at position 7 - Value. */
  lemma BinaryTripleListed(p: Triple)
    requires IsBinaryTriple(p)
    ensures 0 <= 7 - Value(p) < 8 && NEIGHBOURHOOD_STATES[7 - Value(p)] == p
  {
    NeighbourhoodStatesListed();
    var k := 7 - Value(p);
    if p.first == 0 {
      if p.second == 0 {
        if p.third == 0 { assert p == Triple(0, 0, 0) && k == 7; } else { assert p == Triple(0, 0, 1) && k == 6; }
      } else {
        if p.third == 0 { assert p == Triple(0, 1, 0) && k == 5; } else { assert p == Triple(0, 1, 1) && k == 4; }
      }
    } else {
      if p.second == 0 {
        if p.third == 0 { assert p == Triple(1, 0, 0) && k == 3; } else { assert p == Triple(1, 0, 1) && k == 2; }
      } else {
        if p.third == 0 { assert p == Triple(1, 1, 0) && k == 1; } else { assert p == Triple(1, 1, 1) && k == 0; }
      }
    }
  }

  /** The entries of ps whose flag in m is set, in their original order (boolean-mask indexing). */
  function Select(m: seq<bool>, ps: seq<Triple>): (r: seq<Triple>)
    requires |m| == |ps|
    ensures |r| == CountTrue(m)
  {
    if m == [] then []
    else Select(m[..|m| - 1], ps[..|ps| - 1]) + (if m[|m| - 1] then [ps[|ps| - 1]] else [])
  }

  lemma {:induction false} SelectMembers(m: seq<bool>, ps: seq<Triple>, p: Triple)
    requires |m| == |ps|
    ensures p in Select(m, ps) <==> exists i :: 0 <= i < |m| && m[i] && ps[i] == p
  {
    if m != [] {
      var n := |m| - 1;
      SelectMembers(m[..n], ps[..n], p);
      if p in Select(m, ps) && p !in Select(m[..n], ps[..n]) {
        assert m[n] && ps[n] == p;
      }
      if exists i :: 0 <= i < |m| && m[i] && ps[i] == p {
        var i :| 0 <= i < |m| && m[i] && ps[i] == p;
        if i < n {
          assert m[..n][i] && ps[..n][i] == p;
        }
      }
    }
  }

  /** Selecting from a table listed in strictly decreasing Value keeps that order. */
  lemma {:induction false} SelectDescending(m: seq<bool>, ps: seq<Triple>)
    requires |m| == |ps|
    requires forall i, j :: 0 <= i < j < |ps| ==> Value(ps[i]) > Value(ps[j])
    ensures forall i, j :: 0 <= i < j < |Select(m, ps)| ==> Value(Select(m, ps)[i]) > Value(Select(m, ps)[j])
  {
    if m != [] {
      var n := |m| - 1;
      var pre := Select(m[..n], ps[..n]);
      SelectDescending(m[..n], ps[..n]);
      if m[n] {
        forall k | 0 <= k < |pre|
          ensures Value(pre[k]) > Value(ps[n])
        {
          SelectMembers(m[..n], ps[..n], pre[k]);
        }
      }
    }
  }

  /** The neighbourhoods whose mapped bit is 1, in Wolfram's order. */
  function SelectedPatterns(code: int): (ps: seq<Triple>)
    requires 0 <= code <= 255
  {
    Select(RuleMapping(code), NEIGHBOURHOOD_STATES)
  }

  /** Only binary triples whose bit is set are selected. */
  lemma SelectedOnlyIfBit(code: int, p: Triple)
    requires 0 <= code <= 255
    requires p in SelectedPatterns(code)
    ensures IsBinaryTriple(p) && Bit(code, Value(p))
  {
    var m := RuleMapping(code);
    SelectMembers(m, NEIGHBOURHOOD_STATES, p);
    var i :| 0 <= i < 8 && m[i] && NEIGHBOURHOOD_STATES[i] == p;
    NeighbourhoodStatesValues();
    assert Bit(code, 7 - i);
  }

  /** Every binary triple whose bit is set is selected. */
  lemma SelectedIfBit(code: int, p: Triple)
    requires 0 <= code <= 255
    requires IsBinaryTriple(p) && Bit(code, Value(p))
    ensures p in SelectedPatterns(code)
  {
    var m := RuleMapping(code);
    BinaryTripleListed(p);
    var i := 7 - Value(p);
    assert m[i] && NEIGHBOURHOOD_STATES[i] == p;
    SelectMembers(m, NEIGHBOURHOOD_STATES, p);
  }

  /** A triple is selected exactly when it is binary and the code's bit at its Value is set. */
  lemma SelectedMembership(code: int, p: Triple)
    requires 0 <= code <= 255
    ensures p in SelectedPatterns(code) <==> IsBinaryTriple(p) && Bit(code, Value(p))
  {
    if p in SelectedPatterns(code) {
      SelectedOnlyIfBit(code, p);
    }
    if IsBinaryTriple(p) && Bit(code, Value(p)) {
      SelectedIfBit(code, p);
    }
  }

  /** The selected patterns number popcount(code) and are strictly ordered, hence pairwise distinct. */
  lemma SelectedShape(code: int)
    requires 0 <= code <= 255
    ensures |SelectedPatterns(code)| == Popcount(code)
    ensures forall i, j :: 0 <= i < j < |SelectedPatterns(code)| ==>
              Value(SelectedPatterns(code)[i]) > Value(SelectedPatterns(code)[j])
  {
    NeighbourhoodStatesValues();
    SelectDescending(RuleMapping(code), NEIGHBOURHOOD_STATES);
  }

  /**
   * create_rule_array: the k = popcount(code) selected patterns, replicated at
   * every one of the size lattice positions (shape size x 3 x k).
   */
  function CreateRuleArray(code: int, size: nat): (r: seq<seq<Triple>>)
    requires 0 <= code <= 255
    ensures |r| == size
    ensures forall s :: 0 <= s < size ==> |r[s]| == Popcount(code)
    ensures forall s, p :: 0 <= s < size ==> (p in r[s] <==> IsBinaryTriple(p) && Bit(code, Value(p)))
    ensures forall s, i, j :: 0 <= s < size && 0 <= i < j < |r[s]| ==> Value(r[s][i]) > Value(r[s][j])
  {
    SelectedShape(code);
    forall p ensures p in SelectedPatterns(code) <==> IsBinaryTriple(p) && Bit(code, Value(p)) {
      SelectedMembership(code, p);
    }
    seq(size, _ => SelectedPatterns(code))
  }

  // ---------------------------------------------------------------------------
  // One synchronous step and the run
  // ---------------------------------------------------------------------------

  /** The triple the simulator builds at site i: (x[i+1], x[i], x[i-1]) on the ring. */
  function SiteTriple(x: seq<int>, i: nat): (p: Triple)
    requires i < |x|
    ensures p.second == x[i]
    ensures p.first == if i + 1 < |x| then x[i + 1] else x[0]
    ensures p.third == if i > 0 then x[i - 1] else x[|x| - 1]
  {
    Triple(x[(i + 1) % |x|], x[i], x[(i - 1) % |x|])
  }

  /** The match-and-sum count: how many of the stored patterns equal nb in all three slots. */
  function MatchCount(nb: Triple, ps: seq<Triple>): nat
  {
    if ps == [] then 0 else MatchCount(nb, ps[..|ps| - 1]) + (if ps[|ps| - 1] == nb then 1 else 0)
  }

  /** Over pairwise distinct patterns the match-and-sum count is the indicator of membership. */
  lemma {:induction false} MatchCountDistinct(nb: Triple, ps: seq<Triple>)
    requires forall i, j :: 0 <= i < j < |ps| ==> ps[i] != ps[j]
    ensures MatchCount(nb, ps) == if nb in ps then 1 else 0
  {
    if ps != [] {
      var n := |ps| - 1;
      MatchCountDistinct(nb, ps[..n]);
      assert ps == ps[..n] + [ps[n]];
      if ps[n] == nb {
        assert nb !in ps[..n];
      }
    }
  }

  /** At most one stored pattern matches any triple, so the per-site sum never exceeds 1. */
  lemma PatternsMatchAtMostOnce(code: int)
    requires 0 <= code <= 255
    ensures forall nb :: MatchCount(nb, SelectedPatterns(code)) <= 1
  {
    SelectedShape(code);
    forall nb ensures MatchCount(nb, SelectedPatterns(code)) <= 1 {
      MatchCountDistinct(nb, SelectedPatterns(code));
    }
  }

  /** Column t + 1 computed from column t alone; every new cell is 0 or 1, whatever the old cells. */
  function NextColumn(code: int, x: seq<int>): (y: seq<int>)
    requires 0 <= code <= 255
    ensures |y| == |x|
    ensures IsBinary(y)
  {
    PatternsMatchAtMostOnce(code);
    seq(|x|, i requires 0 <= i < |x| => MatchCount(SiteTriple(x, i), SelectedPatterns(code)))
  }

  /** Column t of the space-time diagram of code started from init. */
  function State(code: int, init: seq<int>, t: nat): (x: seq<int>)
    requires 0 <= code <= 255
    ensures |x| == |init|
    ensures t > 0 || IsBinary(init) ==> IsBinary(x)
  {
    if t == 0 then init else NextColumn(code, State(code, init, t - 1))
  }

  /**
   * On a binary column, the new cell i is 1 exactly when bit
   * 4*x[i+1] + 2*x[i] + x[i-1] of the code is set: the Wolfram rule with the
   * left and right neighbours exchanged.
   */
  lemma NextCellRule(code: int, x: seq<int>, i: nat)
    requires 0 <= code <= 255 && IsBinary(x) && i < |x|
    ensures NextColumn(code, x)[i] == if Bit(code, 4 * x[(i + 1) % |x|] + 2 * x[i] + x[(i - 1) % |x|]) then 1 else 0
  {
    var ps := SelectedPatterns(code);
    SelectedShape(code);
    SelectedMembership(code, SiteTriple(x, i));
    MatchCountDistinct(SiteTriple(x, i), ps);
  }

  /** Code 0 stores no pattern, so every column after the first is all zeros, whatever the cells. */
  lemma RuleZero(init: seq<int>, t: nat)
    requires t >= 1
    ensures forall i :: 0 <= i < |init| ==> State(0, init, t)[i] == 0
  {
    SelectedShape(0);
    assert SelectedPatterns(0) == [];
  }

  /** Code 204 = 0b11001100 sets exactly the bits whose middle binary digit is 1. */
  lemma Code204Bits(v: int)
    requires 0 <= v < 8
    ensures Bit(204, v) <==> v == 2 || v == 3 || v == 6 || v == 7
  {
    assert !Bit(204, 0) && !Bit(204, 1) && Bit(204, 2) && Bit(204, 3);
    assert !Bit(204, 4) && !Bit(204, 5) && Bit(204, 6) && Bit(204, 7);
  }

  /** Code 90 = 0b01011010 sets exactly the bits whose outer binary digits differ. */
  lemma Code90Bits(v: int)
    requires 0 <= v < 8
    ensures Bit(90, v) <==> v == 1 || v == 3 || v == 4 || v == 6
  {
    assert !Bit(90, 0) && Bit(90, 1) && !Bit(90, 2) && Bit(90, 3);
    assert Bit(90, 4) && !Bit(90, 5) && Bit(90, 6) && !Bit(90, 7);
  }

  /** Code 204 copies the centre cell. */
  lemma RuleIdentityStep(x: seq<int>)
    requires IsBinary(x)
    ensures NextColumn(204, x) == x
  {
    forall i | 0 <= i < |x| ensures NextColumn(204, x)[i] == x[i] {
      NextCellRule(204, x, i);
      Code204Bits(4 * x[(i + 1) % |x|] + 2 * x[i] + x[(i - 1) % |x|]);
    }
  }

  /** Under code 204 every column equals the initial configuration. */
  lemma {:induction false} RuleIdentity(init: seq<int>, t: nat)
    requires IsBinary(init)
    ensures State(204, init, t) == init
  {
    if t > 0 {
      RuleIdentity(init, t - 1);
      var prev := State(204, init, t - 1);
      assert prev == init;
      RuleIdentityStep(init);
      assert NextColumn(204, prev) == init;
    }
  }

  /** Code 90 gives cell i = x[i+1] XOR x[i-1]. */
  lemma RuleXor(x: seq<int>, i: nat)
    requires IsBinary(x) && i < |x|
    ensures NextColumn(90, x)[i] == (x[(i + 1) % |x|] + x[(i - 1) % |x|]) % 2
  {
    NextCellRule(90, x, i);
    Code90Bits(4 * x[(i + 1) % |x|] + 2 * x[i] + x[(i - 1) % |x|]);
  }

  /** Code 90 on the five-cell ring [0,0,1,0,0]. */
  lemma RuleXorExample(x: seq<int>)
    requires x == [0, 0, 1, 0, 0]
    ensures NextColumn(90, x) == [0, 1, 0, 1, 0]
  {
    var y := NextColumn(90, x);
    RuleXor(x, 0);
    assert y[0] == (x[1] + x[4]) % 2 == 0;
    RuleXor(x, 1);
    assert y[1] == (x[2] + x[0]) % 2 == 1;
    RuleXor(x, 2);
    assert y[2] == (x[3] + x[1]) % 2 == 0;
    RuleXor(x, 3);
    assert y[3] == (x[4] + x[2]) % 2 == 1;
    RuleXor(x, 4);
    assert y[4] == (x[0] + x[3]) % 2 == 0;
  }

  /**
   * The per-site match-and-sum: for each stored pattern, the product of the
   * three slot-wise equality indicators, summed over the patterns.
   */
  method MatchAndSum(nb: Triple, patterns: seq<Triple>) returns (sum: nat)
    ensures sum == MatchCount(nb, patterns)
  {
    sum := 0;
    for k := 0 to |patterns|
      invariant sum == MatchCount(nb, patterns[..k])
    {
      var p := patterns[k];
      var product := 1;
      product := product * (if nb.first == p.first then 1 else 0);
      product := product * (if nb.second == p.second then 1 else 0);
      product := product * (if nb.third == p.third then 1 else 0);
      assert patterns[..k + 1][..k] == patterns[..k];
      sum := sum + product;
    }
    assert patterns[..|patterns|] == patterns;
  }

  /**
   * One pass of the time loop of run_ECA: refill the neighbourhood buffer from
   * column t - 1 (its rolls by -1, 0 and +1), then write column t site by site.
   * Only column t and the buffer change.
   */
  method Step(code: int, ruleArray: seq<seq<Triple>>, d: array2<int>, neighbourhood: array2<int>, t: nat, ghost prev: seq<int>)
    requires 0 <= code <= 255 && ruleArray == CreateRuleArray(code, d.Length0)
    requires neighbourhood != d && neighbourhood.Length0 == d.Length0 && neighbourhood.Length1 == 3
    requires 1 <= t < d.Length1
    requires |prev| == d.Length0 && forall i :: 0 <= i < d.Length0 ==> d[i, t - 1] == prev[i]
    modifies d, neighbourhood
    ensures forall i :: 0 <= i < d.Length0 ==> d[i, t] == NextColumn(code, prev)[i]
    ensures forall i :: 0 <= i < d.Length0 ==>
      Triple(neighbourhood[i, 0], neighbourhood[i, 1], neighbourhood[i, 2]) == SiteTriple(prev, i)
    ensures forall i, t' :: 0 <= i < d.Length0 && 0 <= t' < d.Length1 && t' != t ==> d[i, t'] == old(d[i, t'])
  {
    var size := d.Length0;
    for i := 0 to size
      modifies neighbourhood
      invariant forall i' :: 0 <= i' < i ==>
        Triple(neighbourhood[i', 0], neighbourhood[i', 1], neighbourhood[i', 2]) == SiteTriple(prev, i')
    {
      neighbourhood[i, 0] := d[(i + 1) % size, t - 1];
      neighbourhood[i, 1] := d[i, t - 1];
      neighbourhood[i, 2] := d[(i - 1) % size, t - 1];
    }
    ghost var next := NextColumn(code, prev);
    for i := 0 to size
      modifies d
      invariant forall i', t' :: 0 <= i' < size && 0 <= t' < d.Length1 && t' != t ==> d[i', t'] == old(d[i', t'])
      invariant forall i' :: 0 <= i' < i ==> d[i', t] == next[i']
      invariant forall i' :: 0 <= i' < size ==>
        Triple(neighbourhood[i', 0], neighbourhood[i', 1], neighbourhood[i', 2]) == SiteTriple(prev, i')
    {
      var nb := Triple(neighbourhood[i, 0], neighbourhood[i, 1], neighbourhood[i, 2]);
      var sum := MatchAndSum(nb, ruleArray[i]);
      d[i, t] := sum;
    }
  }

  /**
   * run_ECA: a size x simulationLength diagram whose column 0 is the initial
   * configuration and whose column t is computed, site by site, from column
   * t - 1 by matching the site's triple against the stored patterns and
   * summing the matches.
   */
  method RunECA(code: int, initialConfiguration: seq<int>, simulationLength: nat) returns (d: array2<int>)
    requires 0 <= code <= 255
    requires IsBinary(initialConfiguration)
    requires simulationLength >= 1
    ensures d.Length0 == |initialConfiguration| && d.Length1 == simulationLength
    ensures forall i, t :: 0 <= i < d.Length0 && 0 <= t < d.Length1 ==> d[i, t] == State(code, initialConfiguration, t)[i]
    ensures Column(d, 0) == initialConfiguration
    ensures forall t :: 1 <= t < simulationLength ==> Column(d, t) == NextColumn(code, Column(d, t - 1))
    ensures forall i, t :: 0 <= i < d.Length0 && 0 <= t < d.Length1 ==> d[i, t] == 0 || d[i, t] == 1
  {
    var size := |initialConfiguration|;
    d := new int[size, simulationLength];
    for i := 0 to size
      invariant forall i' :: 0 <= i' < i ==> d[i', 0] == initialConfiguration[i']
    {
      d[i, 0] := initialConfiguration[i];
    }
    var ruleArray := CreateRuleArray(code, size);
    var neighbourhood := new int[size, 3];
    for t := 1 to simulationLength
      invariant forall i, t' :: 0 <= i < size && 0 <= t' < t ==> d[i, t'] == State(code, initialConfiguration, t')[i]
    {
      Step(code, ruleArray, d, neighbourhood, t, State(code, initialConfiguration, t - 1));
      assert forall i :: 0 <= i < size ==> d[i, t] == State(code, initialConfiguration, t)[i];
    }
    forall i, t | 0 <= i < size && 0 <= t < simulationLength
      ensures d[i, t] == 0 || d[i, t] == 1
    {
      assert IsBinary(State(code, initialConfiguration, t));
    }
    assert Column(d, 0) == initialConfiguration;
    forall t | 1 <= t < simulationLength
      ensures Column(d, t) == NextColumn(code, Column(d, t - 1))
    {
      assert Column(d, t - 1) == State(code, initialConfiguration, t - 1);
      assert Column(d, t) == State(code, initialConfiguration, t);
    }
  }
}
