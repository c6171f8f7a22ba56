/**
 * A value holding one of two strongly typed options. The option is fixed when
 * the value is created; reading the option that is not set raises
 * InvalidOperationException.
 */
module DiscriminatedUnions {
  import opened Wrappers
  import opened Exceptions

  datatype DiscriminatedUnionOption = A | B

  datatype DiscriminatedUnion<TA, TB> = UnionA(a: TA) | UnionB(b: TB)
  {
    /** The option set for this value. */
    function Option(): (r: DiscriminatedUnionOption)
      ensures r == A <==> UnionA?
    {
      if UnionA? then A else B
    }

    /** The value of option A, or InvalidOperationException when option B is set. */
    function GetA(): (r: Result<TA, Exception>)
      ensures r.Success? <==> Option() == A
      ensures r.Failure? ==> r.error == InvalidOperationException
    {
      if Option() != A then Failure(InvalidOperationException) else Success(a)
    }

    /** The value of option B, or InvalidOperationException when option A is set. */
    function GetB(): (r: Result<TB, Exception>)
      ensures r.Success? <==> Option() == B
      ensures r.Failure? ==> r.error == InvalidOperationException
    {
      if Option() != B then Failure(InvalidOperationException) else Success(b)
    }

    /** The text of the value of the option that is set. */
    function ToString(showA: TA -> string, showB: TB -> string): (r: string)
      ensures GetA().Success? ==> r == showA(GetA().value)
      ensures GetB().Success? ==> r == showB(GetB().value)
    {
      match this
      case UnionA(x) => showA(x)
      case UnionB(y) => showB(y)
    }
  }

  function CreateA<TA, TB>(a: TA): DiscriminatedUnion<TA, TB> {
    UnionA(a)
  }

  function CreateB<TA, TB>(b: TB): DiscriminatedUnion<TA, TB> {
    UnionB(b)
  }

  /** A value created with option A reads back the value through A, and B is refused; likewise for B. */
  lemma CreateThenGet<TA, TB>(a: TA, b: TB)
    ensures CreateA<TA, TB>(a).Option() == A && CreateA<TA, TB>(a).GetA() == Success(a)
    ensures CreateA<TA, TB>(a).GetB() == Failure(InvalidOperationException)
    ensures CreateB<TA, TB>(b).Option() == B && CreateB<TA, TB>(b).GetB() == Success(b)
    ensures CreateB<TA, TB>(b).GetA() == Failure(InvalidOperationException)
  {
  }
}
