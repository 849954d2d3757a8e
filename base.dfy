/** Types shared by every module: bytes, the Java exceptions the modelled code can raise,
    and the few Java library behaviours (narrowing to `int`, `Arrays.copyOfRange`) that it relies on. */
module Base {

  /** One octet of a Java `byte[]`, taken unsigned. */
  type byte = b: int | 0 <= b < 256

  type Bytes = seq<byte>

  /** The exceptions the modelled code raises, by cause. */
  datatype Error =
    | Truncated             // an IOException: the input ended before the value being read
    | IllegalArgument       // java.lang.IllegalArgumentException
    | NegativeArraySize     // java.lang.NegativeArraySizeException
    | BufferUnderflow       // java.nio.BufferUnderflowException
    | NullPointer           // java.lang.NullPointerException
    | NotImplemented        // CloudproofException("not implemented")
    | NativeError(code: int)    // a non-zero code of the native library, raised by `unwrap`
    | CallbackError(code: int)  // an exception recorded by a callback, rethrown after the native call
    | TokenIsNull           // CloudproofException("Token cannot be null")
    | DelegateError         // a CloudproofException thrown by a user-supplied delegate

  datatype Result<T> = Ok(value: T) | Err(error: Error)

  datatype Option<T> = None | Some(value: T)

  const TWO_TO_32: int := 0x1_0000_0000
  const INT_MIN: int := -0x8000_0000
  const INT_MAX: int := 0x7fff_ffff

  predicate IsInt(x: int) {
    INT_MIN <= x <= INT_MAX
  }

  function Min(a: int, b: int): int {
    if a <= b then a else b
  }

  function Max(a: int, b: int): int {
    if a <= b then b else a
  }

  /** Java's narrowing to `int` (and its `int` arithmetic): keep the low 32 bits, read them in two's complement. */
  function ToInt(x: int): (r: int)
    ensures IsInt(r)
    ensures (r - x) % TWO_TO_32 == 0
    ensures IsInt(x) ==> r == x
  {
    var low := x % TWO_TO_32;
    if low <= INT_MAX then low else low - TWO_TO_32
  }

  function Zeros(n: nat): (r: Bytes)
    ensures |r| == n && forall i :: 0 <= i < n ==> r[i] == 0
  {
    seq(n, _ => 0)
  }

  /** `Arrays.copyOfRange(a, 0, to)`: the first `to` bytes of `a`, padded with zeros when `to`
      exceeds the array; a negative `to` is an IllegalArgumentException. */
  function CopyOfRange(a: Bytes, to: int): (r: Result<Bytes>)
    ensures r.Ok? <==> to >= 0
    ensures r.Ok? ==> |r.value| == to
    ensures r.Ok? ==> forall i :: 0 <= i < to ==> r.value[i] == if i < |a| then a[i] else 0
    ensures r.Err? ==> r.error == IllegalArgument
  {
    if to < 0 then Err(IllegalArgument)
    else if to <= |a| then Ok(a[..to])
    else Ok(a + Zeros(to - |a|))
  }

  /** Iterating a Java `HashSet` (or the key set of a `HashMap`): every element once, in an order
      the model leaves open. */
  method Listing<T>(s: set<T>) returns (r: seq<T>)
    ensures forall x :: x in r <==> x in s
    ensures forall i, j :: 0 <= i < j < |r| ==> r[i] != r[j]
    ensures |r| == |s|
  {
    r := [];
    var rest := s;
    while rest != {}
      invariant rest <= s
      invariant forall x :: x in r <==> x in s && x !in rest
      invariant forall i, j :: 0 <= i < j < |r| ==> r[i] != r[j]
      invariant |r| + |rest| == |s|
      decreases rest
    {
      var x :| x in rest;
      r := r + [x];
      rest := rest - {x};
    }
  }
}
