/** Slicing of sequences with the argument checks of the library's Slice extension. */
module SequenceUtility {
  import opened Wrappers
  import opened Exceptions

  /**
   * The `size` elements of `source` starting at `startIndex`. A missing source
   * raises ArgumentNullException; a start outside `0..|source|`, a negative
   * size, or a slice running past the end raises ArgumentOutOfRangeException.
   */
  function Slice<T>(source: Option<seq<T>>, startIndex: int, size: int): (r: Result<seq<T>, Exception>)
    ensures source.None? ==> r == Failure(ArgumentNullException)
    ensures source.Some? ==>
      (r.Success? <==> 0 <= startIndex && 0 <= size && startIndex + size <= |source.value|)
    ensures source.Some? && r.Failure? ==> r.error == ArgumentOutOfRangeException
    ensures r.Success? ==>
      |r.value| == size && forall i :: 0 <= i < size ==> r.value[i] == source.value[startIndex + i]
  {
    if source.None? then Failure(ArgumentNullException)
    else
      var enumerable := source.value;
      var num := |enumerable|;
      if startIndex < 0 || num < startIndex then Failure(ArgumentOutOfRangeException)
      else if size < 0 || startIndex + size > num then Failure(ArgumentOutOfRangeException)
      else Success(enumerable[startIndex..startIndex + size])
  }

  /** Slicing the middle, the beginning and the end of a ten-element sequence. */
  lemma SliceExamples()
    ensures Slice(Some([1, 2, 3, 4, 5, 6, 7, 8, 9, 10]), 2, 5) == Success([3, 4, 5, 6, 7])
    ensures Slice(Some([1, 2, 3, 4, 5, 6, 7, 8, 9, 10]), 0, 2) == Success([1, 2])
    ensures Slice(Some([1, 2, 3, 4, 5, 6, 7, 8, 9, 10]), 8, 2) == Success([9, 10])
    ensures Slice(Some([true, false, false, false, true, true]), 2, 3) == Success([false, false, true])
    ensures Slice<bool>(None, 1, 1) == Failure(ArgumentNullException)
  {
    var s := [1, 2, 3, 4, 5, 6, 7, 8, 9, 10];
    assert s[2..7] == [3, 4, 5, 6, 7];
    assert s[0..2] == [1, 2];
    assert s[8..10] == [9, 10];
    var c := [true, false, false, false, true, true];
    assert c[2..5] == [false, false, true];
  }

  /** Slicing at a split point of a concatenation picks out its parts. */
  lemma SliceOfConcatenation<T>(a: seq<T>, b: seq<T>, c: seq<T>)
    ensures Slice(Some(a + b + c), |a|, |b|) == Success(b)
  {
    assert (a + b + c)[|a|..|a| + |b|] == b;
  }

  /** The first `n` elements of a sequence, or all of it when it is shorter, as LINQ's Take. */
  function Take<T>(source: seq<T>, n: nat): (r: seq<T>)
    ensures |r| <= n && |r| <= |source| && r == source[..|r|]
    ensures n <= |source| ==> |r| == n
    ensures |source| <= n ==> r == source
  {
    if n <= |source| then source[..n] else source
  }
}
