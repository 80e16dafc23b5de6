/**
 * The register machine of eval_2 (source/eval.c) as a function: text and cursor in, result and cursor out.
 * Slot 0 of the machine is called sum here, slot 1 prod, slot 2 pow; '\0' marks a slot without a pending operator.
 */
module ExpressionMachine {
  import opened CyclotomicValues
  import opened PrimeProducts
  import opened PhiValues

  // ---------------------------------------------------------------- machine words and characters

  const LONG_LIMIT: int := 0x8000_0000_0000_0000

  /** mpz_get_ui: the low 64 bits of the absolute value; the sign is lost. */
  function GetUi(n: int): (r: nat)
    ensures r < WORD
  {
    (if n < 0 then -n else n) % WORD
  }

  /** mpz_get_si: the value when it fits, else its low 63 bits under its sign. */
  function GetSi(n: int): (r: int)
    ensures -LONG_LIMIT <= r < LONG_LIMIT
  {
    if n >= 0 then (n % WORD) % LONG_LIMIT
    else -1 - ((-n - 1) % WORD) % LONG_LIMIT
  }

  /** A long that takes an out-of-range value modulo 2^64. */
  function WrapLong(x: int): (r: int)
    ensures -LONG_LIMIT <= r < LONG_LIMIT
    ensures -LONG_LIMIT <= x < LONG_LIMIT ==> r == x
  {
    (x + LONG_LIMIT) % WORD - LONG_LIMIT
  }

  predicate IsDigit(c: char) {
    '0' <= c <= '9'
  }

  predicate IsHexDigit(c: char) {
    IsDigit(c) || 'a' <= c <= 'f' || 'A' <= c <= 'F'
  }

  predicate IsOpen(c: char) {
    c == '(' || c == '[' || c == '{'
  }

  predicate IsClose(c: char) {
    c == ')' || c == ']' || c == '}'
  }

  predicate IsProductOp(c: char) {
    c == '.' || c == '*' || c == '/' || c == '%'
  }

  predicate IsSumOp(c: char) {
    c == '+' || c == '-'
  }

  predicate IsEnd(c: char, inParams: bool) {
    c == '\0' || IsClose(c) || (c == ',' && inParams)
  }

  /** The character at the cursor; the text is followed by a NUL. */
  function At(txt: string, i: nat): char {
    if i < |txt| then txt[i] else '\0'
  }

  predicate SameLetter(c: char, lower: char, upper: char) {
    c == lower || c == upper
  }

  predicate StartsPhi(txt: string, p: nat) {
    && SameLetter(At(txt, p), 'p', 'P')
    && SameLetter(At(txt, p + 1), 'h', 'H')
    && SameLetter(At(txt, p + 2), 'i', 'I')
    && At(txt, p + 3) == '('
  }

  predicate StartsHex(txt: string, p: nat) {
    At(txt, p) == '0' && SameLetter(At(txt, p + 1), 'x', 'X')
  }

  /** Length of the run of digits, decimal or hexadecimal, from p on. */
  function RunLength(txt: string, p: nat, hex: bool): (n: nat)
    ensures p <= |txt| ==> p + n <= |txt|
    decreases |txt| - p
  {
    if p < |txt| && (if hex then IsHexDigit(txt[p]) else IsDigit(txt[p])) then 1 + RunLength(txt, p + 1, hex) else 0
  }

  function DigitValue(c: char): int {
    if IsDigit(c) then c as int - '0' as int
    else if 'a' <= c <= 'f' then c as int - 'a' as int + 10
    else if 'A' <= c <= 'F' then c as int - 'A' as int + 10
    else 0
  }

  function Numeral(s: string, base: int): int {
    if |s| == 0 then 0 else Numeral(s[..|s| - 1], base) * base + DigitValue(s[|s| - 1])
  }

  // ---------------------------------------------------------------- the three levels of operators

  datatype Halt = InexactDivision | DivisionByZero | Endless | PhiTooBig | Overrun

  datatype Step = Ok(value: int) | Halted(reason: Halt)

  /** The multi-factorial loop on machine words: cur is a long, d an unsigned long. */
  ghost function MultiFactorialWords(cur: int, d: int): int
    requires 1 <= d < WORD && -LONG_LIMIT <= cur < LONG_LIMIT
    decreases if d <= LONG_LIMIT then cur + LONG_LIMIT else LONG_LIMIT - cur, if cur <= 1 then 0 else 1
  {
    if cur <= 1 then 1
    else if WrapLong(cur - d) <= 1 then cur
    else cur * MultiFactorialWords(WrapLong(cur - d), d)
  }

  /** eval_power: op applied to the number waiting in slot 2 and the current one. */
  ghost function EvalPower(op: char, prior: int, n: int): Step {
    if op == '^' then Ok(Pow(prior, GetUi(n)))
    else if op == '!' then Ok(Factorial(GetUi(n)))
    else if op == '@' then
      if GetSi(prior) <= 1 then Ok(1)
      else if GetUi(n) == 0 then Halted(Endless)
      else Ok(MultiFactorialWords(GetSi(prior), GetUi(n)))
    else if op == '#' then Ok(PrimeProduct(2, GetSi(n)))
    else if op == '$' then Ok(PrimeProduct(if GetUi(n) < 3 then 3 else GetUi(n), GetSi(prior)))
    else Ok(n)
  }

  /** Quotient and remainder of mpz_tdiv_qr: the quotient is rounded towards zero. */
  function TruncDiv(a: int, b: int): int
    requires b != 0
  {
    var q := (if a < 0 then -a else a) / (if b < 0 then -b else b);
    if (a < 0) == (b < 0) then q else -q
  }

  function TruncRem(a: int, b: int): int
    requires b != 0
  {
    var r := (if a < 0 then -a else a) % (if b < 0 then -b else b);
    if a < 0 then -r else r
  }

  /** eval_product: the division must come out exact, the remainder takes the sign of the dividend. */
  function EvalProduct(op: char, prior: int, n: int): Step {
    if op == '*' || op == '.' then Ok(prior * n)
    else if op == '/' then
      if n == 0 then Halted(DivisionByZero)
      else if TruncRem(prior, n) != 0 then Halted(InexactDivision)
      else Ok(TruncDiv(prior, n))
    else if op == '%' then
      if n == 0 then Halted(DivisionByZero) else Ok(TruncRem(prior, n))
    else Ok(n)
  }

  /** eval_sum. */
  function EvalSum(op: char, prior: int, n: int): int {
    if op == '+' then prior + n
    else if op == '-' then prior - n
    else n
  }

  // ---------------------------------------------------------------- the machine

  datatype Regs = Regs(sumOp: char, sum: int, prodOp: char, prod: int, powOp: char, pow: int)

  const EMPTY: Regs := Regs('\0', 0, '\0', 0, '\0', 0)

  /** Return value, the global t, and the cursor; or the reason why the program stops. */
  datatype Outcome = Return(code: int, t: int, pos: nat) | Stop(reason: Halt)

  /** The number after the slots of the power level and the product level have been worked off. */
  ghost function Collapse(regs: Regs, n: int): Step {
    match EvalPower(regs.powOp, regs.pow, n)
    case Halted(r) => Halted(r)
    case Ok(v) => EvalProduct(regs.prodOp, regs.prod, v)
  }

  /** One call of eval_2 with the cursor at pos. */
  ghost function Run(txt: string, pos: nat, inParams: bool, t: int, pp: int -> bool): (r: Outcome)
    ensures r.Return? && pos <= |txt| ==> pos <= r.pos <= |txt| + 1
    ensures r.Return? && pos <= |txt| && r.code == 2 ==> pos < r.pos <= |txt|
    decreases |txt| + 2 - pos, 3
  {
    Operand(txt, pos, inParams, t, EMPTY, 0, pp)
  }

  /** The machine where it expects a number; n is what the number register still holds. */
  ghost function Operand(txt: string, pos: nat, inParams: bool, t: int, regs: Regs, n: int,
    pp: int -> bool): (r: Outcome)
    ensures r.Return? && pos <= |txt| ==> pos <= r.pos <= |txt| + 1
    ensures r.Return? && pos <= |txt| && r.code == 2 ==> pos < r.pos <= |txt|
    decreases |txt| + 2 - pos, 2
  {
    if pos > |txt| then Stop(Overrun)
    else if At(txt, pos) == '-' then Unsigned(txt, pos + 1, inParams, t, regs, n, true, pp)
    else Unsigned(txt, pos, inParams, t, regs, n, false, pp)
  }

  /** The rest of a number whose sign has been read. */
  ghost function Unsigned(txt: string, p: nat, inParams: bool, t: int, regs: Regs, n: int, negate: bool,
    pp: int -> bool):
    (r: Outcome)
    requires p <= |txt|
    ensures r.Return? ==> p <= r.pos <= |txt| + 1
    ensures r.Return? && r.code == 2 ==> p < r.pos <= |txt|
    decreases |txt| + 2 - p, 1
  {
    var digits := RunLength(txt, p, false);
    if IsOpen(At(txt, p)) then
      match Run(txt, p + 1, inParams, t, pp)
      case Stop(reason) => Stop(reason)
      case Return(code, v, p') =>
        Suffix(txt, p', inParams, v, regs, if negate then -v else v, pp)
    else if digits == 0 && StartsPhi(txt, p) then
      PhiOperand(txt, p + 4, inParams, t, regs, n, pp)
    else if digits == 0 then Return(0, t, p)
    else if digits == 1 && StartsHex(txt, p) then
      var h := RunLength(txt, p + 2, true);
      var v := if h == 0 then n else Numeral(txt[p + 2..p + 2 + h], 16);
      Suffix(txt, p + 2 + h, inParams, t, regs, if negate then -v else v, pp)
    else
      var v := Numeral(txt[p..p + digits], 10);
      Suffix(txt, p + digits, inParams, t, regs, if negate then -v else v, pp)
  }

  /** The two parameters of phi; a minus sign before phi has been read and is not looked at again. */
  ghost function PhiOperand(txt: string, pos: nat, inParams: bool, t: int, regs: Regs, n: int,
    pp: int -> bool): (r: Outcome)
    requires pos <= |txt|
    ensures r.Return? && pos <= |txt| ==> pos <= r.pos <= |txt| + 1
    ensures r.Return? && pos <= |txt| && r.code == 2 ==> pos < r.pos <= |txt|
    decreases |txt| + 2 - pos, 4
  {
    match Run(txt, pos, true, t, pp)
    case Stop(reason) => Stop(reason)
    case Return(code, b, p') =>
      if code != 2 then Return(0, b, p')
      else
        match Run(txt, p', false, b, pp)
        case Stop(reason) => Stop(reason)
        case Return(code', v, p'') =>
          if code' == 0 then Suffix(txt, p'', inParams, v, regs, n, pp)
          else
            match Phi(b, v, pp)
            case PhiValue(value) => Suffix(txt, p'', inParams, v, regs, value, pp)
            case PhiRejected => Return(0, v, p'')
            case PhiOverflow => Stop(PhiTooBig)
  }

  /** The machine where it expects an operator, with the number n just read. */
  ghost function Suffix(txt: string, pos: nat, inParams: bool, t: int, regs: Regs, n: int,
    pp: int -> bool): (r: Outcome)
    ensures r.Return? && pos <= |txt| ==> pos < r.pos <= |txt| + 1
    ensures r.Return? && pos <= |txt| && r.code == 2 ==> pos < r.pos <= |txt|
    decreases |txt| + 2 - pos, 0
  {
    if pos > |txt| then Stop(Overrun)
    else
      var op, p := At(txt, pos), pos + 1;
      if IsEnd(op, inParams) then
        match Collapse(regs, n)
        case Halted(reason) => Stop(reason)
        case Ok(v) => Return(if op == ',' then 2 else 1, EvalSum(regs.sumOp, regs.sum, v), p)
      else if op == '!' && !IsDigit(At(txt, p)) then
        Suffix(txt, p, inParams, t, regs.(pow := n, powOp := '!'), n, pp)
      else if op == '#' && !IsDigit(At(txt, p)) then
        Suffix(txt, p, inParams, t, regs.(pow := n, powOp := '#'), n, pp)
      else if op == '^' || op == '!' || op == '#' then
        match EvalPower(regs.powOp, regs.pow, n)
        case Halted(reason) => Stop(reason)
        case Ok(v) => Operand(txt, p, inParams, t, regs.(pow := v, powOp := Pending(op)), v, pp)
      else if IsProductOp(op) then
        match Collapse(regs, n)
        case Halted(reason) => Stop(reason)
        case Ok(v) => Operand(txt, p, inParams, t, regs.(powOp := '\0', prod := v, prodOp := op), v, pp)
      else if IsSumOp(op) then
        match Collapse(regs, n)
        case Halted(reason) => Stop(reason)
        case Ok(v) =>
          var w := EvalSum(regs.sumOp, regs.sum, v);
          Operand(txt, p, inParams, t, regs.(powOp := '\0', prodOp := '\0', sum := w, sumOp := op), w, pp)
      else Return(0, t, p)
  }

  /** The operator a two-place power operator leaves in slot 2. */
  function Pending(op: char): char {
    if op == '!' then '@' else if op == '#' then '$' else op
  }
}
