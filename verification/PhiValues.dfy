/** The answers of eval_Phi (source/eval.c) for all parameters. */
module PhiValues {
  import opened CyclotomicValues

  const INT_LIMIT: int := 0x8000_0000

  datatype PhiResult = PhiValue(value: int) | PhiRejected | PhiOverflow

  const WORD: int := 0x1_0000_0000_0000_0000

  /** What Phi(b, n) comes to, with the answer of the probable-prime test as a parameter. */
  ghost function Phi(b: int, n: int, probablePrime: int -> bool): PhiResult {
    if n == 1 then PhiValue(if probablePrime(b) then b else 1)
    else if n == -1 || b == 0 then PhiRejected
    else if b == 1 then PhiValue(n - 1)
    else if 2 <= b < INT_LIMIT then PhiValue(Cyclotomic(n, b))
    else if WORD - INT_LIMIT <= b < WORD then PhiOverflow
    else PhiRejected
  }

  /** The answer is zero for one pair of parameters at most. */
  lemma PhiIsZero(b: int, n: int, probablePrime: int -> bool)
    ensures Phi(b, n, probablePrime) == PhiValue(0) <==> b == 0 && n == 1 && probablePrime(0)
  {
    if n != 1 && n != -1 && 2 <= b < INT_LIMIT {
      CyclotomicNotZero(n, b);
    }
  }
}
