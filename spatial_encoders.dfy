/**
 * The k-to-n spatial encoder: each input row of width k is spread over a zero
 * row of width n, value i going to column locations[i].
 */
module SpatialEncoders {
  import opened Wrappers

  /** The guard's complaint: the input width and the number of locations differ. */
  datatype EncoderError = LengthMismatch(width: nat, locationCount: nat)

  /** Row n of a two-dimensional array. */
  function Row(a: array2<int>, n: nat): (row: seq<int>)
    requires n < a.Length0
    reads a
    ensures |row| == a.Length1
    ensures forall i :: 0 <= i < |row| ==> row[i] == a[n, i]
  {
    seq(a.Length1, i requires 0 <= i < a.Length1 reads a => a[n, i])
  }

  /** Every location names a column of the encoded row. */
  predicate InRange(locations: seq<int>, size: nat)
  {
    forall i :: 0 <= i < |locations| ==> 0 <= locations[i] < size
  }

  /**
   * A zero row of the given size after writing values[i] at locations[i] for
   * i = 0, 1, ... in turn.
   */
  function Scatter(values: seq<int>, size: nat, locations: seq<int>): (row: seq<int>)
    requires |values| == |locations| && InRange(locations, size)
    ensures |row| == size
  {
    if locations == [] then seq(size, _ => 0)
    else
      var n := |locations| - 1;
      Scatter(values[..n], size, locations[..n])[locations[n] := values[n]]
  }

  /** A column that no location names stays 0. */
  lemma {:induction false} ScatterUnnamed(values: seq<int>, size: nat, locations: seq<int>, c: int)
    requires |values| == |locations| && InRange(locations, size)
    requires 0 <= c < size && c !in locations
    ensures Scatter(values, size, locations)[c] == 0
  {
    if locations != [] {
      var n := |locations| - 1;
      assert locations == locations[..n] + [locations[n]];
      ScatterUnnamed(values[..n], size, locations[..n], c);
    }
  }

  /** A named column holds the value of the last write to it. */
  lemma {:induction false} ScatterLastWrite(values: seq<int>, size: nat, locations: seq<int>, i: int)
    requires |values| == |locations| && InRange(locations, size)
    requires 0 <= i < |locations|
    requires forall j :: i < j < |locations| ==> locations[j] != locations[i]
    ensures Scatter(values, size, locations)[locations[i]] == values[i]
  {
    var n := |locations| - 1;
    if i < n {
      ScatterLastWrite(values[..n], size, locations[..n], i);
    }
  }

  /** With pairwise distinct locations every value lands at its own location. */
  lemma ScatterDistinct(values: seq<int>, size: nat, locations: seq<int>)
    requires |values| == |locations| && InRange(locations, size)
    requires forall i, j :: 0 <= i < j < |locations| ==> locations[i] != locations[j]
    ensures forall i :: 0 <= i < |locations| ==> Scatter(values, size, locations)[locations[i]] == values[i]
  {
    forall i | 0 <= i < |locations|
      ensures Scatter(values, size, locations)[locations[i]] == values[i]
    {
      ScatterLastWrite(values, size, locations, i);
    }
  }

  /**
   * k_to_n_encoder: fails when the input width differs from the number of
   * locations; otherwise row n of the result is Scatter of input row n.
   */
  method KToNEncoder(inputSet: array2<int>, encodedInputSize: nat, locations: seq<int>)
    returns (r: Result<array2<int>, EncoderError>)
    requires inputSet.Length1 == |locations| ==> InRange(locations, encodedInputSize)
    ensures r.Failure? <==> inputSet.Length1 != |locations|
    ensures r.Failure? ==> r.error == LengthMismatch(inputSet.Length1, |locations|)
    ensures r.Success? ==> r.value.Length0 == inputSet.Length0 && r.value.Length1 == encodedInputSize
    ensures r.Success? ==> forall n, c :: 0 <= n < inputSet.Length0 && 0 <= c < encodedInputSize ==>
      r.value[n, c] == Scatter(Row(inputSet, n), encodedInputSize, locations)[c]
  {
    if inputSet.Length1 != |locations| {
      return Failure(LengthMismatch(inputSet.Length1, |locations|));
    }
    var rows := inputSet.Length0;
    ghost var input := seq(rows, n requires 0 <= n < rows reads inputSet => Row(inputSet, n));
    var encoded := new int[rows, encodedInputSize]((_, _) => 0);
    for n := 0 to rows
      invariant forall n', c :: 0 <= n' < n && 0 <= c < encodedInputSize ==>
        encoded[n', c] == Scatter(input[n'], encodedInputSize, locations)[c]
      invariant forall n', c :: n <= n' < rows && 0 <= c < encodedInputSize ==> encoded[n', c] == 0
    {
      for i := 0 to |locations|
        invariant forall c :: 0 <= c < encodedInputSize ==>
          encoded[n, c] == Scatter(input[n][..i], encodedInputSize, locations[..i])[c]
        invariant forall n', c :: 0 <= n' < n && 0 <= c < encodedInputSize ==>
          encoded[n', c] == Scatter(input[n'], encodedInputSize, locations)[c]
        invariant forall n', c :: n < n' < rows && 0 <= c < encodedInputSize ==> encoded[n', c] == 0
      {
        assert input[n][..i + 1][..i] == input[n][..i];
        assert locations[..i + 1][..i] == locations[..i];
        encoded[n, locations[i]] := inputSet[n, i];
      }
      assert input[n][..|locations|] == input[n] && locations[..|locations|] == locations;
    }
    return Success(encoded);
  }
}
