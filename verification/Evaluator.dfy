/**
 * The recursive evaluator of source/eval.c over its text buffer, its cursor and its slot arrays. Every call is proved
 * to do what the register machine of ExpressionMachine does from the same cursor, and to leave the buffer as it was.
 */
module Evaluator {
  import opened Arithmetic
  import opened Primes
  import opened CyclotomicValues
  import opened PrimeProducts
  import opened Primorials
  import opened PhiValues
  import opened PhiEvaluator
  import opened ExpressionMachine
  import opened OperatorMeaning
  import opened ExpressionGrammar
  import opened ExpressionTrees

  // ---------------------------------------------------------------- the three levels of operators

  lemma MultiplyOn(r: int, c: int, rest: int)
    ensures r * (c * rest) == (r * c) * rest
  {
  }

  /** What is left of the loop: a step of at most 2^63 counts down, a longer one wraps and counts up. */
  function WordsLeft(cur: int, d: int): int {
    if cur <= 1 then 0
    else if d <= LONG_LIMIT then cur + LONG_LIMIT
    else LONG_LIMIT - cur
  }

  lemma WordsUnfold(cur: int, d: int, next: int)
    requires 1 <= d < WORD && 1 < cur < LONG_LIMIT && next == WrapLong(cur - d)
    ensures MultiFactorialWords(cur, d) == cur * MultiFactorialWords(next, d)
  {
    hide WrapLong;
    if next <= 1 {
      assert MultiFactorialWords(next, d) == 1;
    }
  }

  lemma WordsDescend(cur: int, d: int, next: int)
    requires 1 <= d < WORD && 1 < cur < LONG_LIMIT && next == WrapLong(cur - d)
    ensures 0 <= WordsLeft(next, d) < WordsLeft(cur, d)
  {
  }

  /** The decrementing loop of the multi-factorial on a long and an unsigned long. */
  method MultiFactorialLoop(start: int, d: int) returns (r: int)
    requires 1 <= d < WORD && -LONG_LIMIT <= start < LONG_LIMIT
    ensures r == MultiFactorialWords(start, d)
  {
    r := 1;
    var cur := start;
    assert cur <= 1 ==> MultiFactorialWords(cur, d) == 1;
    while cur > 1
      invariant -LONG_LIMIT <= cur < LONG_LIMIT
      invariant r * MultiFactorialWords(cur, d) == MultiFactorialWords(start, d)
      decreases WordsLeft(cur, d)
    {
      hide MultiFactorialWords, WordsLeft;
      ghost var next := WrapLong(cur - d);
      WordsUnfold(cur, d, next);
      WordsDescend(cur, d, next);
      MultiplyOn(r, cur, MultiFactorialWords(next, d));
      r := r * cur;
      cur := WrapLong(cur - d);
    }
  }

  /** The counter of the loop after k rounds, which goes on while it is above 1. */
  function Counter(start: int, d: int, k: nat): int {
    if k == 0 then start else WrapLong(Counter(start, d, k - 1) - d)
  }

  lemma {:induction false} CounterShifts(cur: int, d: int, k: nat)
    ensures Counter(cur, d, k + 1) == Counter(WrapLong(cur - d), d, k)
  {
    if k > 0 {
      CounterShifts(cur, d, k - 1);
    }
  }

  lemma {:induction false} CounterComesDown(cur: int, d: int) returns (k: nat)
    requires 1 <= d < WORD && -LONG_LIMIT <= cur < LONG_LIMIT
    ensures Counter(cur, d, k) <= 1
    decreases WordsLeft(cur, d)
  {
    k := 0;
    if cur > 1 {
      WordsDescend(cur, d, WrapLong(cur - d));
      var rounds := CounterComesDown(WrapLong(cur - d), d);
      CounterShifts(cur, d, rounds);
      k := rounds + 1;
    }
  }

  lemma {:induction false} CounterStays(start: int, k: nat)
    requires -LONG_LIMIT <= start < LONG_LIMIT
    ensures Counter(start, 0, k) == start
  {
    if k > 0 {
      CounterStays(start, k - 1);
    }
  }

  /** The loop ends exactly when there is nothing to multiply or the step is not zero. */
  lemma LoopEndsExactly(start: int, d: int)
    requires 0 <= d < WORD && -LONG_LIMIT <= start < LONG_LIMIT
    ensures (exists k: nat :: Counter(start, d, k) <= 1) <==> start <= 1 || d != 0
  {
    if d == 0 {
      forall k: nat
        ensures Counter(start, d, k) == start
      {
        CounterStays(start, k);
      }
      assert Counter(start, d, 0) == start;
    } else {
      var k := CounterComesDown(start, d);
    }
  }

  /** The operator never comes back exactly when the counter stays above 1 for ever. */
  lemma EndlessExactly(prior: int, n: int)
    ensures EvalPower('@', prior, n) == Halted(Endless) <==> forall k: nat :: Counter(GetSi(prior), GetUi(n), k) > 1
  {
    hide MultiFactorialWords, GetSi, GetUi;
    LoopEndsExactly(GetSi(prior), GetUi(n));
  }

  method ApplyPower(op: char, prior: int, n: int) returns (r: Step)
    requires ShortGaps()
    ensures r == EvalPower(op, prior, n)
  {
    hide MultiFactorialWords, PrimeProduct, Pow, Factorial;
    if op == '^' {
      r := Ok(Pow(prior, GetUi(n)));
    } else if op == '!' {
      r := Ok(Factorial(GetUi(n)));
    } else if op == '@' {
      if GetSi(prior) > 1 && GetUi(n) == 0 {
        return Halted(Endless);
      } else if GetSi(prior) <= 1 {
        return Ok(1);
      }
      var v := MultiFactorialLoop(GetSi(prior), GetUi(n));
      r := Ok(v);
    } else if op == '#' {
      GapsBelow(7 * GetSi(n));
      var v := Primorial(GetSi(n));
      r := Ok(v);
    } else if op == '$' {
      GapsBelow(7 * GetSi(prior));
      var v := ReducedPrimorial(GetSi(prior), GetUi(n));
      r := Ok(v);
    } else {
      r := Ok(n);
    }
  }

  lemma GapsBelow(limit: int)
    requires ShortGaps()
    ensures ShortGapsBelow(limit)
  {
  }

  /** mpz_tdiv_qr: quotient and remainder of the sizes, with the signs put back. */
  method DivideTruncating(a: int, b: int) returns (q: int, r: int)
    requires b != 0
    ensures q == TruncDiv(a, b) && r == TruncRem(a, b)
  {
    var x, y := if a < 0 then -a else a, if b < 0 then -b else b;
    q, r := x / y, x % y;
    if (a < 0) != (b < 0) {
      q := -q;
    }
    if a < 0 {
      r := -r;
    }
  }

  /** A division yields the number that gives the dividend when multiplied back, or stops the program. */
  method ApplyProduct(op: char, prior: int, n: int) returns (r: Step)
    ensures r == EvalProduct(op, prior, n)
    ensures op == '/' ==> forall q :: r == Ok(q) <==> n != 0 && prior == q * n
    ensures op == '%' ==> forall rest :: r == Ok(rest) <==>
      n != 0 && SizeOf(rest) < SizeOf(n) && (rest == 0 || (rest < 0 <==> prior < 0)) && Divides(SizeOf(n), prior - rest)
  {
    ProductMeanings(op, prior, n);
    if op == '*' || op == '.' {
      r := Ok(prior * n);
    } else if op == '/' || op == '%' {
      if n == 0 {
        return Halted(DivisionByZero);
      }
      var q, rest := DivideTruncating(prior, n);
      if op == '%' {
        return Ok(rest);
      }
      r := if rest != 0 then Halted(InexactDivision) else Ok(q);
    } else {
      r := Ok(n);
    }
  }

  lemma ProductMeanings(op: char, prior: int, n: int)
    ensures op == '/' ==> forall q :: EvalProduct(op, prior, n) == Ok(q) <==> n != 0 && prior == q * n
    ensures op == '%' ==> forall rest :: EvalProduct(op, prior, n) == Ok(rest) <==>
      n != 0 && SizeOf(rest) < SizeOf(n) && (rest == 0 || (rest < 0 <==> prior < 0)) && Divides(SizeOf(n), prior - rest)
  {
    hide EvalProduct;
    forall v
      ensures op == '/' ==> (EvalProduct(op, prior, n) == Ok(v) <==> n != 0 && prior == v * n)
      ensures op == '%' ==> (EvalProduct(op, prior, n) == Ok(v) <==>
        n != 0 && SizeOf(v) < SizeOf(n) && (v == 0 || (v < 0 <==> prior < 0)) && Divides(SizeOf(n), prior - v))
    {
      DivisionIsExact(prior, n, v);
      RemainderOfDividend(prior, n, v);
    }
  }

  /** Works off what waits in the power slot and then what waits in the product slot. */
  method CollapseSlots(ns: array<int>, ops: array<char>, n: int) returns (r: Step)
    requires ShortGaps() && ns.Length == 4 && ops.Length == 4
    ensures r == Collapse(Slots(ns, ops), n)
  {
    hide EvalPower, EvalProduct, ShortGaps;
    r := ApplyPower(ops[2], ns[2], n);
    if r.Ok? {
      r := ApplyProduct(ops[1], ns[1], r.value);
    }
  }

  // ---------------------------------------------------------------- the evaluator

  /** Return value of eval_2, or the way the program ends inside it. */
  datatype Status = Returned(code: int) | Exited(reason: Halt)

  /** What follows the reading of a number or of an operator. */
  datatype Next = Operator(n: int) | Number(n: int) | Over(status: Status)

  ghost function Slots(ns: array<int>, ops: array<char>): Regs
    requires ns.Length == 4 && ops.Length == 4
    reads ns, ops
  {
    Regs(ops[0], ns[0], ops[1], ns[1], ops[2], ns[2])
  }

  /** Size of the buffer that eval_str asks for. */
  function BufferSize(length: nat): nat {
    if length > 5000 then length + 1 else 5000
  }

  /** The text and its NUL have room in every case but one. */
  lemma BufferHoldsText(length: nat)
    ensures length < BufferSize(length) <==> length != 5000
  {
  }

  class Parser {
    ghost const txt: string
    const expr: array<char>
    const length: nat
    const probablePrime: int -> bool
    var cursor: nat
    var t: int

    ghost predicate Valid()
      reads expr
      ensures Valid() ==> |txt| == length
    {
      |txt| == length < expr.Length && expr[..length] == txt && expr[length] == '\0'
    }

    ghost predicate Agrees(s: Status, r: Outcome)
      reads this
    {
      match r
      case Return(code, v, p) => s == Returned(code) && t == v && cursor == p
      case Stop(reason) => s == Exited(reason)
    }

    /** Copies the text into the buffer and ends it with a NUL. */
    constructor (cp: string, isPrp: int -> bool)
      requires |cp| < BufferSize(|cp|)
      ensures Valid() && fresh(expr) && cursor == 0 && t == 0 && txt == cp && probablePrime == isPrp
    {
      var buffer := new char[BufferSize(|cp|)];
      forall i | 0 <= i < |cp| {
        buffer[i] := cp[i];
      }
      buffer[|cp|] := '\0';
      txt, expr, length, probablePrime := cp, buffer, |cp|, isPrp;
      cursor, t := 0, 0;
    }

    /** The character at p, which is the NUL at the end of the text at the latest. */
    function CharAt(p: nat): (c: char)
      requires Valid() && p <= |txt|
      reads expr
      ensures c == At(txt, p)
    {
      assert p < |txt| ==> expr[p] == expr[..|txt|][p];
      expr[p]
    }

    /** Number of digits from p on. */
    method CountDigits(p: nat, hex: bool) returns (i: nat)
      requires Valid() && p <= |txt|
      ensures i == RunLength(txt, p, hex)
    {
      i := 0;
      while if hex then IsHexDigit(CharAt(p + i)) else IsDigit(CharAt(p + i))
        invariant p + i <= |txt| && RunLength(txt, p, hex) == i + RunLength(txt, p + i, hex)
        decreases |txt| - i
      {
        i := i + 1;
      }
    }

    /** mpz_set_str: the number that stands between from and the next NUL; no digit leaves the old value. */
    method SetString(from: nat, ghost end: nat, base: int, stale: int) returns (v: int)
      requires from <= end < expr.Length && expr[end] == '\0'
      requires forall k :: from <= k < end ==> expr[k] != '\0'
      ensures v == if from == end then stale else Numeral(expr[from..end], base)
    {
      var j := from;
      v := 0;
      while expr[j] != '\0'
        invariant from <= j <= end && v == Numeral(expr[from..j], base)
        decreases end - j
      {
        v := v * base + DigitValue(expr[j]);
        j := j + 1;
        assert expr[from..j][..|expr[from..j]| - 1] == expr[from..j - 1];
      }
      if j == from {
        v := stale;
      }
    }

    /** Reads digits: the character behind them is replaced by a NUL for the conversion and put back afterwards. */
    method ReadNumber(digits: nat, hex: bool, stale: int) returns (v: int)
      requires Valid() && cursor <= |txt| && digits == RunLength(txt, cursor, hex)
      modifies this`cursor, expr
      ensures Valid() && expr[..] == old(expr[..]) && cursor == old(cursor) + digits <= |txt|
      ensures v == if digits == 0 then stale else Numeral(txt[old(cursor)..cursor], if hex then 16 else 10)
    {
      var end := cursor + digits;
      ghost var before := expr[..];
      RunIsDigits(txt, cursor, hex);
      var op := expr[end];
      expr[end] := '\0';
      assert forall k :: cursor <= k < end ==> expr[k] == before[k] == before[..|txt|][k] == txt[k];
      v := SetString(cursor, end, if hex then 16 else 10, stale);
      assert expr[cursor..end] == txt[cursor..end];
      cursor := end;
      expr[end] := op;
      assert expr[..] == before;
      assert expr[..|txt|] == before[..|txt|];
    }

    method AtPhi() returns (r: bool)
      requires Valid() && cursor <= |txt|
      ensures r == StartsPhi(txt, cursor) && (r ==> cursor + 4 <= |txt|)
    {
      r := SameLetter(CharAt(cursor), 'p', 'P')
        && SameLetter(CharAt(cursor + 1), 'h', 'H')
        && SameLetter(CharAt(cursor + 2), 'i', 'I')
        && CharAt(cursor + 3) == '(';
    }

    /** How much there is left to read, with the NUL and one step beyond it. */
    ghost function Left(): nat
      reads this
    {
      if cursor <= |txt| + 1 then |txt| + 2 - cursor else 0
    }

    /** One call of eval_2. */
    method Eval2(inParams: bool) returns (s: Status)
      requires Valid() && ShortGaps()
      modifies this, expr
      ensures Valid() && expr[..] == old(expr[..])
      ensures Agrees(s, Run(txt, old(cursor), inParams, old(t), probablePrime))
      decreases Left(), 2
    {
      hide ShortGaps, Operand, Suffix, PhiOperand;
      var ns, ops := new int[4], new char[4];
      for i := 0 to 4
        modifies ns, ops
        invariant forall k :: 0 <= k < i ==> ns[k] == 0 && ops[k] == '\0'
      {
        ns[i], ops[i] := 0, '\0';
      }
      var n, wantNumber := 0, true;
      assert Slots(ns, ops) == EMPTY;
      while true
        invariant Valid() && expr[..] == old(expr[..]) && cursor >= old(cursor)
        invariant fresh(ns) && fresh(ops) && ns.Length == 4 && ops.Length == 4
        invariant Run(txt, old(cursor), inParams, old(t), probablePrime)
               == if wantNumber then Operand(txt, cursor, inParams, t, Slots(ns, ops), n, probablePrime)
                  else Suffix(txt, cursor, inParams, t, Slots(ns, ops), n, probablePrime)
        decreases Left(), if wantNumber then 1 else 0
      {
        hide Run, Valid, Slots;
        var next;
        if wantNumber {
          next := ReadOperand(inParams, ns, ops, n);
        } else {
          next := ReadOperator(inParams, ns, ops, n);
        }
        match next {
          case Over(status) => return status;
          case Operator(v) => n, wantNumber := v, false;
          case Number(v) => n, wantNumber := v, true;
        }
      }
    }

    /** The part of eval_2 that reads a number: a bracket, a call of phi, or digits. */
    method ReadOperand(inParams: bool, ns: array<int>, ops: array<char>, stale: int) returns (r: Next)
      requires Valid() && ShortGaps() && ns.Length == 4 && ops.Length == 4 && ops != expr
      modifies this, expr, ns
      ensures Valid() && expr[..] == old(expr[..]) && Slots(ns, ops) == old(Slots(ns, ops)) && !r.Number?
      ensures r.Over? ==>
        Agrees(r.status, Operand(txt, old(cursor), inParams, old(t), old(Slots(ns, ops)), stale, probablePrime))
      ensures r.Operator? ==>
        && old(cursor) < cursor && old(cursor) <= |txt|
        && Operand(txt, old(cursor), inParams, old(t), old(Slots(ns, ops)), stale, probablePrime)
           == Suffix(txt, cursor, inParams, t, Slots(ns, ops), r.n, probablePrime)
      decreases Left(), 1
    {
      hide ShortGaps, Unsigned, Suffix, Valid, Slots, CharAt;
      if cursor > length {
        return Over(Exited(Overrun));
      }
      var negate := CharAt(cursor) == '-';
      if negate {
        cursor := cursor + 1;
      }
      r := ReadUnsigned(inParams, ns, ops, stale, negate);
    }

    /** The rest of a number whose sign has been read. */
    method ReadUnsigned(inParams: bool, ns: array<int>, ops: array<char>, stale: int, negate: bool) returns (r: Next)
      requires Valid() && ShortGaps() && ns.Length == 4 && ops.Length == 4 && ops != expr && cursor <= |txt|
      modifies this, expr, ns
      ensures Valid() && expr[..] == old(expr[..]) && Slots(ns, ops) == old(Slots(ns, ops)) && !r.Number?
      ensures r.Over? ==>
        Agrees(r.status,
               Unsigned(txt, old(cursor), inParams, old(t), old(Slots(ns, ops)), stale, negate, probablePrime))
      ensures r.Operator? ==>
        && old(cursor) < cursor
        && Unsigned(txt, old(cursor), inParams, old(t), old(Slots(ns, ops)), stale, negate, probablePrime)
           == Suffix(txt, cursor, inParams, t, Slots(ns, ops), r.n, probablePrime)
      decreases Left(), 0
    {
      hide ShortGaps, Run, Suffix, PhiOperand, StartsPhi, StartsHex, RunLength, Numeral, Valid, Slots, CharAt;
      if IsOpen(CharAt(cursor)) {
        cursor := cursor + 1;
        var s := Eval2(inParams);
        return if s.Exited? then Over(s) else Operator(if negate then -t else t);
      }
      var i := CountDigits(cursor, false);
      if i > 0 {
        var n := ReadLiteral(i, stale);
        return Operator(if negate then -n else n);
      }
      var phi := AtPhi();
      if !phi {
        return Over(Returned(0));
      }
      cursor := cursor + 4;
      r := ReadPhi(inParams, ns, ops, stale);
    }

    /** A number in decimal, or in hexadecimal behind 0x. */
    method ReadLiteral(digits: nat, stale: int) returns (n: int)
      requires Valid() && cursor <= |txt| && digits == RunLength(txt, cursor, false) > 0
      modifies this`cursor, expr
      ensures Valid() && expr[..] == old(expr[..]) && old(cursor) < cursor <= |txt|
      ensures
        var p := old(cursor);
        if digits == 1 && StartsHex(txt, p) then
          var h := RunLength(txt, p + 2, true);
          cursor == p + 2 + h && n == if h == 0 then stale else Numeral(txt[p + 2..p + 2 + h], 16)
        else cursor == p + digits && n == Numeral(txt[p..p + digits], 10)
    {
      hide Numeral;
      var i := digits;
      var hex := i == 1 && CharAt(cursor) == '0' && SameLetter(CharAt(cursor + 1), 'x', 'X');
      if hex {
        cursor := cursor + 2;
        i := CountDigits(cursor, true);
      }
      hide RunLength;
      n := ReadNumber(i, hex, stale);
    }

    /** The two parameters of phi: the first ends at a comma and waits in slot 3, the second ends at a bracket. */
    method ReadPhi(inParams: bool, ns: array<int>, ops: array<char>, stale: int) returns (r: Next)
      requires Valid() && ShortGaps() && ns.Length == 4 && ops.Length == 4 && ops != expr && cursor <= |txt|
      modifies this, expr, ns
      ensures Valid() && expr[..] == old(expr[..]) && Slots(ns, ops) == old(Slots(ns, ops)) && !r.Number?
      ensures r.Over? ==>
        Agrees(r.status, PhiOperand(txt, old(cursor), inParams, old(t), old(Slots(ns, ops)), stale, probablePrime))
      ensures r.Operator? ==>
        && old(cursor) < cursor
        && PhiOperand(txt, old(cursor), inParams, old(t), old(Slots(ns, ops)), stale, probablePrime)
           == Suffix(txt, cursor, inParams, t, Slots(ns, ops), r.n, probablePrime)
      decreases Left(), 3
    {
      hide ShortGaps, Run, Suffix, Operand, Phi;
      var s := Eval2(true);
      if s.Exited? {
        return Over(s);
      }
      if s.code != 2 {
        return Over(Returned(0));
      }
      ns[3] := t;
      s := Eval2(false);
      if s.Exited? {
        return Over(s);
      }
      var n := stale;
      if s.code != 0 {
        n := t;
        GapsBelow(7 * INT_LIMIT);
        var v := EvalPhi(ns[3], n, probablePrime);
        match v {
          case PhiValue(value) => n := value;
          case PhiRejected => return Over(Returned(0));
          case PhiOverflow => return Over(Exited(PhiTooBig));
        }
      }
      r := Operator(n);
    }

    /** The part of eval_2 that reads an operator and works off the slots it binds weaker than. */
    method ReadOperator(inParams: bool, ns: array<int>, ops: array<char>, n: int) returns (r: Next)
      requires Valid() && ShortGaps() && ns.Length == 4 && ops.Length == 4 && ops != expr
      modifies this, ns, ops
      ensures Valid()
      ensures r.Over? ==>
        Agrees(r.status, Suffix(txt, old(cursor), inParams, old(t), old(Slots(ns, ops)), n, probablePrime))
      ensures !r.Over? ==> old(cursor) < cursor && old(cursor) <= |txt|
      ensures r.Operator? ==>
        Suffix(txt, old(cursor), inParams, old(t), old(Slots(ns, ops)), n, probablePrime)
        == Suffix(txt, cursor, inParams, t, Slots(ns, ops), r.n, probablePrime)
      ensures r.Number? ==>
        Suffix(txt, old(cursor), inParams, old(t), old(Slots(ns, ops)), n, probablePrime)
        == Operand(txt, cursor, inParams, t, Slots(ns, ops), r.n, probablePrime)
    {
      hide ShortGaps, Run, Operand, EvalPower, EvalProduct, EvalSum, Collapse;
      if cursor > length {
        return Over(Exited(Overrun));
      }
      var op := CharAt(cursor);
      cursor := cursor + 1;
      if IsEnd(op, inParams) {
        var v := CollapseSlots(ns, ops, n);
        if v.Halted? {
          return Over(Exited(v.reason));
        }
        t := EvalSum(ops[0], ns[0], v.value);
        return Over(Returned(if op == ',' then 2 else 1));
      } else if (op == '!' || op == '#') && !IsDigit(CharAt(cursor)) {
        ns[2], ops[2] := n, op;
        return Operator(n);
      } else if op == '^' || op == '!' || op == '#' {
        var v := ApplyPower(ops[2], ns[2], n);
        if v.Halted? {
          return Over(Exited(v.reason));
        }
        ns[2], ops[2] := v.value, Pending(op);
        return Number(v.value);
      } else if IsProductOp(op) {
        var v := CollapseSlots(ns, ops, n);
        if v.Halted? {
          return Over(Exited(v.reason));
        }
        ops[2] := '\0';
        ns[1], ops[1] := v.value, op;
        return Number(v.value);
      } else if IsSumOp(op) {
        var v := CollapseSlots(ns, ops, n);
        if v.Halted? {
          return Over(Exited(v.reason));
        }
        ops[2], ops[1] := '\0', '\0';
        var w := EvalSum(ops[0], ns[0], v.value);
        ns[0], ops[0] := w, op;
        return Number(w);
      }
      return Over(Returned(0));
    }
  }

  lemma {:induction false} RunIsDigits(txt: string, p: nat, hex: bool)
    requires p <= |txt|
    ensures p + RunLength(txt, p, hex) <= |txt|
    ensures forall k :: p <= k < p + RunLength(txt, p, hex) ==> txt[k] != '\0'
    decreases |txt| - p
  {
    if p < |txt| && (if hex then IsHexDigit(txt[p]) else IsDigit(txt[p])) {
      RunIsDigits(txt, p + 1, hex);
    }
  }

  /** Decimal text of an integer. */
  function IntText(v: int): string {
    if v < 0 then "-" + Decimal(-v) else Decimal(v)
  }

  /** eval_str: the number of characters of the value, 0 when the text is not an expression. */
  method EvalStr(cp: string, isPrp: int -> bool) returns (s: Status, prp: bool)
    requires |cp| < BufferSize(|cp|) && ShortGaps()
    ensures
      match Run(cp, 0, false, 0, isPrp)
      case Return(code, v, _) => s == Returned(if code == 0 then 0 else |IntText(v)|) && prp == (code != 0 && isPrp(v))
      case Stop(reason) => s == Exited(reason)
  {
    hide ShortGaps, Run;
    var parser := new Parser(cp, isPrp);
    s := parser.Eval2(false);
    prp := s.Returned? && s.code != 0 && isPrp(parser.t);
    if s.Returned? && s.code != 0 {
      s := Returned(|IntText(parser.t)|);
    }
  }

  /** The text of an integer is read back as that integer. */
  lemma IntTextReadsBack(v: int, t: int, pp: int -> bool)
    ensures Run(IntText(v), 0, false, t, pp) == Return(1, v, |IntText(v)| + 1)
  {
    hide Run;
    RoundTrip(Leaf(v), t, pp);
    LeafPrints(v);
  }

  lemma LeafPrints(v: int)
    ensures Printed(Leaf(v)) == IntText(v)
  {
    var s := AsPrimary(Leaf(v));
    assert ShowAtom(s.atom) == Decimal(if v < 0 then -v else v);
    assert ShowChain(First(s)) == ShowSigned(s) == IntText(v);
    assert ShowProduct(Single(First(s))) == IntText(v);
  }
}
