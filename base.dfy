/** Shared vocabulary of the model: bytes, Go-style byte strings, and the
    error values that the client's operations return (or the runtime panics
    they would raise). */
module Base {

  /** A Go `byte`. Go strings are modelled as `seq<byte>`. */
  type byte = x: int | 0 <= x < 256

  /** Why a Go program would panic at run time. */
  datatype PanicCause =
    | IndexOutOfRange        // s[i] with i >= len(s)
    | SliceBoundsOutOfRange  // s[lo:hi] with hi > len(s) or lo > hi
    | MakeLenOutOfRange      // make([]byte, n) with n < 0
    | IntegerDivideByZero    // a / b with b == 0

  datatype Error =
    | NoConnection(address: seq<byte>)     // "no connection with peer address: %s"
    | DialFailed                           // net.Dial returned an error
    | ConnectionClosed                     // read or write on a closed net.Conn
    | EndOfStream                          // the peer sent fewer bytes than were read
    | WrongMessageType(messageType: byte)  // "wrong message type %d"
    | MismatchedPieceIndex                 // "mismatched piece index"
    | InvalidNumber                        // strconv.Atoi: syntax or range error
    | InvalidHex                           // hex.DecodeString: bad digit or odd length
    | IntegerTooShort                      // "not long enough for ben encoded int"
    | IntegerNotDelimited                  // "doesn't have i and e surrounding the string"
    | Unsupported                          // "only strings are supported at the moment"
    | Panic(cause: PanicCause)             // a Go run-time panic

  datatype Result<T> = Ok(value: T) | Err(error: Error)

  datatype Option<T> = None | Some(value: T)

  /** The bytes of an ASCII string literal. */
  function Ascii(s: string): (r: seq<byte>)
    ensures |r| == |s|
  {
    seq(|s|, i requires 0 <= i < |s| => (s[i] as int) % 256)
  }

  /** A zero-filled byte string, as `make([]byte, n)` returns. */
  function Zeros(n: nat): (r: seq<byte>)
    ensures |r| == n
    ensures forall i :: 0 <= i < n ==> r[i] == 0
  {
    seq(n, i => 0)
  }

  // ---------------------------------------------------------------------
  // Integer division facts shared by the piece and peer-list arithmetic

  /** A quotient is the unique q with d * q <= a < d * (q + 1). */
  lemma DivUnique(a: int, d: int, q: int)
    requires d > 0 && d * q <= a < d * (q + 1)
    ensures a / d == q
  {
    var q' := a / d;
    assert d * q' <= a < d * (q' + 1);
    if q' < q {
      MulMonotone(d, q' + 1, q);
    } else if q' > q {
      MulMonotone(d, q + 1, q');
    }
  }

  lemma MulMonotone(d: nat, x: int, y: int)
    requires x <= y
    ensures d * x <= d * y
  {
  }
}
