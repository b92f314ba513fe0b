/**
  Collations: a Java comparator called from the library through java_compare, and the four laws the
  library asks of every collating function.
 */
module Collation {
  import opened ModifiedUtf8

  type Comparator = (JavaString, JavaString) -> int

  /** A comparator result for library text; both sides are cut at the first zero byte and decoded. */
  function JavaCompare(comparator: Comparator, lhs: Bytes, rhs: Bytes): int
    requires Readable(lhs) && Readable(rhs)
  {
    comparator(TextToJava(lhs).value, TextToJava(rhs).value)
  }

  /** The text on which NewStringUTF is defined. */
  predicate Readable(text: Bytes) {
    TextToJava(text).Some?
  }

  /** The four properties the library requires of a collating function, over the elements of `domain`. */
  ghost predicate CollationLaws<T(!new)>(f: (T, T) --> int, domain: T -> bool)
    requires forall a, b :: domain(a) && domain(b) ==> f.requires(a, b)
  {
    && (forall a, b :: domain(a) && domain(b) && f(a, b) == 0 ==> f(b, a) == 0)
    && (forall a, b, c :: domain(a) && domain(b) && domain(c) && f(a, b) == 0 && f(b, c) == 0 ==> f(a, c) == 0)
    && (forall a, b :: domain(a) && domain(b) && f(a, b) < 0 ==> f(b, a) > 0)
    && (forall a, b, c :: domain(a) && domain(b) && domain(c) && f(a, b) < 0 && f(b, c) < 0 ==> f(a, c) < 0)
  }

  function Sign(x: int): int {
    if x < 0 then -1 else if x == 0 then 0 else 1
  }

  /** The contract of java.util.Comparator: the results are those of a total preorder. */
  ghost predicate TotalPreorder(comparator: Comparator) {
    && (forall x, y :: Sign(comparator(x, y)) == -Sign(comparator(y, x)))
    && (forall x, y, z :: comparator(x, y) > 0 && comparator(y, z) > 0 ==> comparator(x, z) > 0)
    && (forall x, y, z :: comparator(x, y) == 0 ==> Sign(comparator(x, z)) == Sign(comparator(y, z)))
  }

  ghost predicate RegisteredLaws(comparator: Comparator) {
    CollationLaws((a, b) requires Readable(a) && Readable(b) => JavaCompare(comparator, a, b), Readable)
  }

  ghost predicate JavaLaws(comparator: Comparator) {
    CollationLaws(comparator, (s: JavaString) => true)
  }

  lemma ContractGivesLaws(comparator: Comparator)
    requires TotalPreorder(comparator)
    ensures JavaLaws(comparator)
  {
    forall x, y, z | comparator(x, y) < 0 && comparator(y, z) < 0
      ensures comparator(x, z) < 0
    {
      assert Sign(comparator(x, y)) == -Sign(comparator(y, x));
      assert Sign(comparator(y, z)) == -Sign(comparator(z, y));
      assert comparator(z, y) > 0 && comparator(y, x) > 0;
      assert Sign(comparator(x, z)) == -Sign(comparator(z, x));
    }
    forall x, y | comparator(x, y) <= 0
      ensures Sign(comparator(y, x)) == -Sign(comparator(x, y))
    {
    }
  }

  lemma RegisteredGivesJava(comparator: Comparator)
    requires RegisteredLaws(comparator)
    ensures JavaLaws(comparator)
  {
    var f := (a, b) requires Readable(a) && Readable(b) => JavaCompare(comparator, a, b);
    assert CollationLaws(f, Readable);
    forall x, y
      ensures comparator(x, y) == 0 ==> comparator(y, x) == 0
      ensures comparator(x, y) < 0 ==> comparator(y, x) > 0
    {
      WrittenTextCompares(comparator, x, y);
      WrittenTextCompares(comparator, y, x);
      assert f(NativeText(x), NativeText(y)) == comparator(x, y);
    }
    forall x, y, z
      ensures comparator(x, y) == 0 && comparator(y, z) == 0 ==> comparator(x, z) == 0
      ensures comparator(x, y) < 0 && comparator(y, z) < 0 ==> comparator(x, z) < 0
    {
      WrittenTextCompares(comparator, x, y);
      WrittenTextCompares(comparator, y, z);
      WrittenTextCompares(comparator, x, z);
      assert f(NativeText(x), NativeText(y)) == comparator(x, y);
      assert f(NativeText(y), NativeText(z)) == comparator(y, z);
    }
  }

  lemma JavaGivesRegistered(comparator: Comparator)
    requires JavaLaws(comparator)
    ensures RegisteredLaws(comparator)
  {
  }

  /**
    The registered collation obeys the library's laws on all readable text exactly when the comparator
    obeys them on all Java strings: every string is the reading of some text.
   */
  lemma LawsPullBack(comparator: Comparator)
    ensures RegisteredLaws(comparator) <==> JavaLaws(comparator)
  {
    if JavaLaws(comparator) {
      JavaGivesRegistered(comparator);
    }
    if RegisteredLaws(comparator) {
      RegisteredGivesJava(comparator);
    }
  }

  ghost predicate CompareWritten(comparator: Comparator, x: JavaString, y: JavaString) {
    && Readable(NativeText(x)) && Readable(NativeText(y))
    && JavaCompare(comparator, NativeText(x), NativeText(y)) == comparator(x, y)
  }

  /** On text written by this binding the cut removes nothing: the comparator sees the strings themselves. */
  lemma WrittenTextCompares(comparator: Comparator, x: JavaString, y: JavaString)
    ensures CompareWritten(comparator, x, y)
    ensures CutAtZero(NativeText(x)) == NativeText(x)
  {
    StringRoundTrip(x);
    StringRoundTrip(y);
    NativeTextKeepsString(x, y);
    CutAtZeroIsPrefix(NativeText(x));
  }

  /** The main statement: a lawful Java comparator is a lawful collation, and text equal up to a zero byte is equal. */
  lemma ComparatorIsCollation(comparator: Comparator)
    requires TotalPreorder(comparator)
    ensures RegisteredLaws(comparator)
    ensures forall a, b :: Readable(a) && Readable(b) && CutAtZero(a) == CutAtZero(b)
                           ==> JavaCompare(comparator, a, b) == 0
  {
    ContractGivesLaws(comparator);
    LawsPullBack(comparator);
    forall a, b | Readable(a) && Readable(b) && CutAtZero(a) == CutAtZero(b)
      ensures JavaCompare(comparator, a, b) == 0
    {
      var x := TextToJava(a).value;
      assert Sign(comparator(x, x)) == -Sign(comparator(x, x));
    }
  }
}
