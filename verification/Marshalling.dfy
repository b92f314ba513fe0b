/**
  Function arguments: java_func turns the library's argument pointers into Java longs, and JniFunc.call
  wraps each long in a SQLiteValue before the user's function runs.
 */
module Marshalling {
  import opened JavaTypes

  const TWO_TO_32: int := 0x1_0000_0000
  const TWO_TO_63: int := 0x8000_0000_0000_0000
  const TWO_TO_64: int := 0x1_0000_0000_0000_0000

  type Pointer = p: int | 0 <= p < TWO_TO_64

  /** The pointer width of the ABI, and how it widens a short pointer. */
  datatype Abi = Bits32(signExtends: bool) | Bits64 {
    function Limit(): int {
      if Bits64? then TWO_TO_64 else TWO_TO_32
    }

    predicate Addresses(p: Pointer) {
      p < Limit()
    }
  }

  /** reinterpret_cast<jlong> of a pointer. */
  function PointerToLong(abi: Abi, p: Pointer): Long
    requires abi.Addresses(p)
  {
    match abi
    case Bits64 => if p >= TWO_TO_63 then p - TWO_TO_64 else p
    case Bits32(signExtends) => if signExtends && p >= TWO_TO_32 / 2 then p - TWO_TO_32 else p
  }

  /** reinterpret_cast of a jlong to a pointer. */
  function LongToPointer(abi: Abi, n: Long): Pointer {
    n % abi.Limit()
  }

  lemma PointerRoundTrip(abi: Abi, p: Pointer)
    requires abi.Addresses(p)
    ensures LongToPointer(abi, PointerToLong(abi, p)) == p
    ensures PointerToLong(abi, p) == 0 <==> p == 0
    ensures abi.Bits32? ==>
              if abi.signExtends then -TWO_TO_32 / 2 <= PointerToLong(abi, p) < TWO_TO_32 / 2
              else 0 <= PointerToLong(abi, p) < TWO_TO_32
  {
    match abi
    case Bits64 =>
      if p >= TWO_TO_63 {
        assert (p - TWO_TO_64) % TWO_TO_64 == p;
      }
    case Bits32(_) =>
      if p >= TWO_TO_32 / 2 {
        assert (p - TWO_TO_32) % TWO_TO_32 == p;
      }
  }

  /** Different live objects keep different Java handles. */
  lemma PointerToLongInjective(abi: Abi, p: Pointer, q: Pointer)
    requires abi.Addresses(p) && abi.Addresses(q)
    ensures PointerToLong(abi, p) == PointerToLong(abi, q) <==> p == q
  {
    PointerRoundTrip(abi, p);
    PointerRoundTrip(abi, q);
  }

  class SQLiteValue {
    const mValuePtr: Long

    constructor (ptr: Long)
      ensures mValuePtr == ptr
    {
      mValuePtr := ptr;
    }
  }

  class SQLiteContext {
    const mContextPtr: Long

    constructor (ptr: Long)
      ensures mContextPtr == ptr
    {
      mContextPtr := ptr;
    }
  }

  /** The C half: the context as a jlong, and one jlong for each argument in a new Java array. */
  method JavaFunc(abi: Abi, context: Pointer, argv: array<Pointer>) returns (jcontext: Long, jvalues: array<Long>)
    requires abi.Addresses(context) && forall i :: 0 <= i < argv.Length ==> abi.Addresses(argv[i])
    ensures LongToPointer(abi, jcontext) == context
    ensures fresh(jvalues) && jvalues.Length == argv.Length
    ensures forall i :: 0 <= i < argv.Length ==> LongToPointer(abi, jvalues[i]) == argv[i]
  {
    var argc := argv.Length;
    var values := new Long[argc];
    var i := 0;
    while i < argc
      invariant 0 <= i <= argc
      invariant forall k :: 0 <= k < i ==> LongToPointer(abi, values[k]) == argv[k]
    {
      values[i] := PointerToLong(abi, argv[i]);
      PointerRoundTrip(abi, argv[i]);
      i := i + 1;
    }
    jvalues := new Long[argc];
    forall k | 0 <= k < argc {
      jvalues[k] := values[k];
    }
    jcontext := PointerToLong(abi, context);
    PointerRoundTrip(abi, context);
  }

  /** The Java half: a context object, and one new value object for each long. */
  method Call(contextPtr: Long, valuePtrs: array<Long>) returns (context: SQLiteContext, values: array<SQLiteValue?>)
    ensures fresh(context) && context.mContextPtr == contextPtr
    ensures fresh(values) && values.Length == valuePtrs.Length
    ensures forall i :: 0 <= i < values.Length ==>
                          values[i] != null && fresh(values[i]) && values[i].mValuePtr == valuePtrs[i]
  {
    values := new SQLiteValue?[valuePtrs.Length];
    var i := 0;
    while i < valuePtrs.Length
      invariant 0 <= i <= valuePtrs.Length
      invariant forall k :: 0 <= k < i ==>
                              values[k] != null && fresh(values[k]) && values[k].mValuePtr == valuePtrs[k]
    {
      values[i] := new SQLiteValue(valuePtrs[i]);
      i := i + 1;
    }
    context := new SQLiteContext(contextPtr);
  }

  /** Both halves: what the user's function gets names the library's context and, in order, the SQL arguments. */
  method InvokeFunction(abi: Abi, context: Pointer, argv: array<Pointer>)
    returns (jcontext: SQLiteContext, values: array<SQLiteValue?>)
    requires abi.Addresses(context) && forall i :: 0 <= i < argv.Length ==> abi.Addresses(argv[i])
    ensures fresh(jcontext) && LongToPointer(abi, jcontext.mContextPtr) == context
    ensures fresh(values) && values.Length == argv.Length
    ensures forall i :: 0 <= i < argv.Length ==>
                          values[i] != null && LongToPointer(abi, values[i].mValuePtr) == argv[i]
  {
    var contextPtr, jvalues := JavaFunc(abi, context, argv);
    jcontext, values := Call(contextPtr, jvalues);
  }
}
