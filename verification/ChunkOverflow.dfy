/** `relay_chunked` asks `copy_exact` for the declared chunk size plus two in 64-bit arithmetic (http.rs). Against the
    framing without that limit: what it makes of sizes that do not fit, and that nothing else goes wrong. */
module ChunkOverflow {
  import opened MachineInts
  import opened Wrappers
  import opened ChunkSyntax
  import opened HttpFraming

  /** The size the line at the front declares, if there is a line and it declares one. */
  function DeclaredSize(t: Bytes): Option<nat> {
    match LineLength(t)
    case None => None
    case Some(n) => ChunkSize(Stripped(t[..n - 1]))
  }

  /** A size that plus two leaves 64 bits. */
  predicate Overflows(size: Option<nat>) {
    size.Some? && size.value + 2 >= TWO_64
  }

  /** `SizedTurn` with unbounded arithmetic. */
  function ExactSizedTurn(n: nat, size: Option<nat>, rest: Bytes): (r: Turn)
    ensures !r.Bad? ==> n <= r.n <= n + |rest|
  {
    if size.None? || size.value == 0 then SizedTurn(n, size, rest)
    else if size.value + 2 > |rest| then Bad(UnexpectedEof)
    else More(n + size.value + 2)
  }

  function ExactTurn(t: Bytes): (r: Turn)
    ensures !r.Bad? ==> 1 <= r.n <= |t|
  {
    match LineLength(t)
    case None => Bad(UnexpectedEof)
    case Some(n) => ExactSizedTurn(n, DeclaredSize(t), t[n..])
  }

  /** How many bytes the chunked body at the front of a stream takes, by the framing itself. */
  function ExactLength(t: Bytes): (r: Result<nat, IoError>)
    ensures r.Ok? ==> r.value <= |t|
    decreases |t|
  {
    match ExactTurn(t)
    case Bad(e) => Err(e)
    case Last(n) => Ok(n)
    case More(n) => Shifted(n, ExactLength(t[n..]))
  }

  /** Where the first chunk starts whose declared size overflows, up to the end of the body. */
  function FirstOverflow(t: Bytes): (r: Option<nat>)
    ensures r.Some? ==> r.value <= |t|
    decreases |t|
  {
    if Overflows(DeclaredSize(t)) then Some(0)
    else match ExactTurn(t)
      case More(n) => Later(n, FirstOverflow(t[n..]))
      case _ => None
  }

  /** A turn goes right exactly if its size fits, or so little follows that the short count is refused as well. */
  lemma SizedTurnExactly(n: nat, size: nat, rest: Bytes)
    requires 0 < size < TWO_64 && |rest| < TWO_64
    ensures SizedTurn(n, Some(size), rest) == ExactSizedTurn(n, Some(size), rest) <==>
            size + 2 < TWO_64 || |rest| < size + 2 - TWO_64
  {
    if size + 2 < TWO_64 {
      DivUnique(size + 2, 0, TWO_64, size + 2);
    } else {
      DivUnique(size + 2, 1, TWO_64, size + 2 - TWO_64);
    }
  }

  lemma SizeFits(n: nat, size: Option<nat>, rest: Bytes)
    requires !Overflows(size)
    ensures SizedTurn(n, size, rest) == ExactSizedTurn(n, size, rest)
  {
    if size.Some? {
      DivUnique(size.value + 2, 0, TWO_64, size.value + 2);
    }
  }

  lemma TurnFits(t: Bytes)
    requires !Overflows(DeclaredSize(t))
    ensures NextTurn(t) == ExactTurn(t)
  {
    hide LineLength, Stripped, ChunkSize, SizedTurn, ExactSizedTurn, Overflows;
    if LineLength(t).Some? {
      SizeFits(LineLength(t).value, DeclaredSize(t), t[LineLength(t).value..]);
    }
  }

  lemma ShortOfOverflow(t: Bytes)
    requires Overflows(DeclaredSize(t)) && |t| < TWO_64
    ensures ExactTurn(t) == Bad(UnexpectedEof)
  {
    hide LineLength, Stripped, ChunkSize, SizedTurn;
  }

  /** Up to the first overflowing size the code frames exactly; from there on it misreads the stream. */
  lemma {:induction false} FramesUntilOverflow(t: Bytes)
    ensures match FirstOverflow(t)
            case None => BodyLength(t) == ExactLength(t)
            case Some(k) => && BodyLength(t) == Shifted(k, BodyLength(t[k..])) && Overflows(DeclaredSize(t[k..]))
                            && (|t| < TWO_64 ==> ExactLength(t) == Err(UnexpectedEof))
    decreases |t|
  {
    hide NextTurn, ExactTurn, DeclaredSize, Overflows;
    if Overflows(DeclaredSize(t)) {
      assert t[0..] == t;
      if |t| < TWO_64 {
        ShortOfOverflow(t);
      }
    } else {
      TurnFits(t);
      if ExactTurn(t).More? {
        var n := ExactTurn(t).n;
        FramesUntilOverflow(t[n..]);
        match FirstOverflow(t[n..])
        case None =>
        case Some(k) =>
          assert t[n..][k..] == t[n + k..];
          ShiftedTwice(n, k, BodyLength(t[n + k..]));
      }
    }
  }

  /** On streams shorter than 2^64 bytes: every complete body is taken exactly, and what is taken is a complete body
      exactly if none of its declared sizes overflows. */
  lemma AcceptedExactly(t: Bytes)
    requires |t| < TWO_64
    ensures ExactLength(t).Ok? ==> BodyLength(t) == ExactLength(t)
    ensures BodyLength(t).Ok? ==> (ExactLength(t) == BodyLength(t) <==> FirstOverflow(t).None?)
  {
    FramesUntilOverflow(t);
  }
}
