// `SmartsAtomExprParser`: the shunting-yard parser of a SMARTS atom
// expression. Primitives are pushed as they are read; each operator first
// applies the stacked operators whose character code is lower (the code is
// the precedence), then is stacked itself. `Character.MAX_VALUE` sits under
// the operators as a sentinel that no operator outranks.

module SmartsParsers {
  import opened Wrappers
  import opened Decimals
  import Words

  // ------------------------------------------------------------ the expression

  /** The query-atom primitives `readPrimitive` builds, with their integer argument. */
  datatype Primitive =
    | Aliphatic                     // A
    | Aromatic                      // a
    | AliphaticElement(z: int)      // C N O P S
    | AromaticElement(z: int)       // c n o p s
    | AtomicNumber(n: int)          // #<n>
    | TotalConnections(n: int)      // X<n>
    | RingConnections(n: int)       // x<n>
    | Degree(n: int)                // D<n>
    | TotalHCount(n: int)           // H<n>
    | ImplicitHCount(n: int)        // h<n>
    | RingMembership(n: int)        // R<n>
    | SmallestRing(n: int)          // r<n>
    | Valence(n: int)               // v<n>
    | Hybridisation(n: int)         // ^<n>
    | Mass(n: int)                  // <n>
    | Charge(n: int)                // +<n>, -<n>

  /** A query atom: a primitive, or `LogicalOperatorAtom.and`, `or` and `not` over query atoms. */
  datatype Expr =
    | Prim(p: Primitive)
    | Conj(left: Expr, right: Expr)
    | Disj(left: Expr, right: Expr)
    | Neg(operand: Expr)

  /** What a query atom means for an atom on which the primitives `holds` are true. */
  function Eval(e: Expr, holds: Primitive -> bool): bool
  {
    match e
    case Prim(p) => holds(p)
    case Conj(l, r) => Eval(l, holds) && Eval(r, holds)
    case Disj(l, r) => Eval(l, holds) || Eval(r, holds)
    case Neg(x) => !Eval(x, holds)
  }

  /** The same expression with the operands of every `and` and `or` swapped. */
  function Mirror(e: Expr): Expr
  {
    match e
    case Prim(p) => e
    case Conj(l, r) => Conj(Mirror(r), Mirror(l))
    case Disj(l, r) => Disj(Mirror(r), Mirror(l))
    case Neg(x) => Neg(Mirror(x))
  }

  /** Swapping the operands of `and` and `or` does not change which atoms match. */
  lemma {:induction false} MirrorSameMeaning(e: Expr, holds: Primitive -> bool)
    ensures Eval(Mirror(e), holds) == Eval(e, holds)
  {
    match e
    case Prim(p) =>
    case Conj(l, r) =>
      MirrorSameMeaning(l, holds);
      MirrorSameMeaning(r, holds);
    case Disj(l, r) =>
      MirrorSameMeaning(l, holds);
      MirrorSameMeaning(r, holds);
    case Neg(x) =>
      MirrorSameMeaning(x, holds);
  }

  // ------------------------------------------------------------ the char buffer

  /** A `CharBuffer` over the chars of the expression. */
  class CharBuffer {
    const data: seq<char>
    var position: nat

    ghost predicate Valid()
      reads this
    {
      position <= |data|
    }

    /** `CharBuffer.wrap(str.toCharArray())`. */
    constructor (data: seq<char>)
      ensures Valid() && this.data == data && position == 0
    {
      this.data := data;
      position := 0;
    }

    function HasRemaining(): (b: bool)
      reads this
      requires Valid()
      ensures b <==> position != |data|
    {
      position < |data|
    }

    /** `get()`: the char at the cursor, advancing it; `BufferUnderflowException` at the end. */
    method Get() returns (r: Result<char, Exception>)
      requires Valid()
      modifies this`position
      ensures Valid()
      ensures old(position) < |data| ==> r == Ok(data[old(position)]) && position == old(position) + 1
      ensures old(position) == |data| ==> r == Err(BufferUnderflow) && position == old(position)
    {
      if position < |data| {
        r := Ok(data[position]);
        position := position + 1;
      } else {
        r := Err(BufferUnderflow);
      }
    }
  }

  // ------------------------------------------------------------ operators

  const Negation: char := '!'
  const ConjunctionHigh: char := '&'
  const Disjunction: char := ','
  const ConjunctionLow: char := ';'

  /** `Character.MAX_VALUE`, the sentinel at the bottom of the operator stack. */
  const Sentinel: char := 0xFFFF as char

  /** `isOperator(c)`: exactly the four operator chars. */
  predicate IsOperator(c: char)
  {
    c == Negation || c == ConjunctionHigh || c == Disjunction || c == ConjunctionLow
  }

  /** `precedence(op)`: the char's code; a lower code binds tighter. */
  function Precedence(op: char): int
  {
    op as int
  }

  /** The operators bind, tightest first: `!`, `&`, `,`, `;`, and nothing outranks the sentinel. */
  lemma PrecedenceOrder()
    ensures Precedence(Negation) < Precedence(ConjunctionHigh) < Precedence(Disjunction)
    ensures Precedence(Disjunction) < Precedence(ConjunctionLow) < Precedence(Sentinel)
  {}

  /** How many operands `apply` pops for op. */
  function Arity(op: char): nat
  {
    if op == ConjunctionHigh || op == ConjunctionLow || op == Disjunction then 2
    else if op == Negation then 1
    else 0
  }

  /**
   * `apply(op, atoms)`: the top of the stack (index 0) is popped first and
   * becomes the left operand. Too few atoms is the `NoSuchElementException`
   * of `ArrayDeque.pop`; any other char (the sentinel) leaves the stack as it is.
   */
  function Apply(op: char, atoms: seq<Expr>): (r: Result<seq<Expr>, Exception>)
    ensures r.Ok? <==> |atoms| >= Arity(op)
    ensures r.Err? ==> r.error == NoSuchElement
    ensures r.Ok? && Arity(op) == 0 ==> r.value == atoms
    ensures r.Ok? && Arity(op) > 0 ==> |r.value| == |atoms| - Arity(op) + 1 && r.value[1..] == atoms[Arity(op)..]
  {
    if op == ConjunctionHigh || op == ConjunctionLow then
      if |atoms| < 2 then Err(NoSuchElement) else Ok([Conj(atoms[0], atoms[1])] + atoms[2..])
    else if op == Disjunction then
      if |atoms| < 2 then Err(NoSuchElement) else Ok([Disj(atoms[0], atoms[1])] + atoms[2..])
    else if op == Negation then
      if |atoms| < 1 then Err(NoSuchElement) else Ok([Neg(atoms[0])] + atoms[1..])
    else Ok(atoms)
  }

  /**
   * `shunt(atoms, operators, op)`: apply stacked operators while the top one
   * has a lower precedence than op, then stack op. Peeking an empty stack
   * yields null, whose unboxing is a `NullPointerException`.
   */
  function Shunted(atoms: seq<Expr>, ops: seq<char>, op: char): (r: Result<(seq<Expr>, seq<char>), Exception>)
    ensures r.Ok? ==> 1 <= |r.value.1| <= |ops| + 1 && r.value.1[0] == op && r.value.1[1..] == ops[|ops| + 1 - |r.value.1|..]
    ensures r.Ok? && r.value.1[1..] != [] ==> Precedence(op) <= Precedence(r.value.1[1])
    decreases |ops|
  {
    if ops == [] then Err(NullPointer)
    else if Precedence(ops[0]) < Precedence(op) then
      match Apply(ops[0], atoms)
      case Err(e) => Err(e)
      case Ok(a) =>
        var r := Shunted(a, ops[1..], op);
        assert r.Ok? ==> ops[1..][|ops| - |r.value.1|..] == ops[|ops| + 1 - |r.value.1|..];
        r
    else
      Ok((atoms, [op] + ops))
  }

  method Shunt(atoms: seq<Expr>, ops: seq<char>, op: char) returns (r: Result<(seq<Expr>, seq<char>), Exception>)
    ensures r == Shunted(atoms, ops, op)
  {
    var a, o := atoms, ops;
    while true
      invariant Shunted(a, o, op) == Shunted(atoms, ops, op)
      decreases |o|
    {
      if o == [] {
        return Err(NullPointer);
      }
      if Precedence(o[0]) >= Precedence(op) {
        break;
      }
      var top := o[0];
      o := o[1..];
      var x := Apply(top, a);
      if x.Err? {
        return Err(x.error);
      }
      a := x.value;
    }
    r := Ok((a, [op] + o));
  }

  /** Operators stacked with precedences non-decreasing from the top down. */
  predicate StackOrdered(ops: seq<char>)
  {
    forall i, j :: 0 <= i < j < |ops| ==> Precedence(ops[i]) <= Precedence(ops[j])
  }

  /** An ordered operator stack with the sentinel at its bottom. */
  predicate SentinelStack(ops: seq<char>)
  {
    ops != [] && StackOrdered(ops) && ops[|ops| - 1] == Sentinel
  }

  /**
   * Shunting keeps the operator stack ordered, and with the sentinel at its
   * bottom an operator never empties it, so the `NullPointerException` of
   * `shunt` cannot happen from `parse`.
   */
  lemma ShuntKeepsOrder(atoms: seq<Expr>, ops: seq<char>, op: char)
    requires SentinelStack(ops) && IsOperator(op)
    ensures Shunted(atoms, ops, op) != Err(NullPointer)
    ensures Shunted(atoms, ops, op).Ok? ==> SentinelStack(Shunted(atoms, ops, op).value.1)
    decreases |ops|
  {
    PrecedenceOrder();
    if Precedence(ops[0]) < Precedence(op) {
      assert |ops| >= 2;
      var x := Apply(ops[0], atoms);
      if x.Ok? {
        assert Shunted(atoms, ops, op) == Shunted(x.value, ops[1..], op);
        TailOrdered(ops);
        ShuntKeepsOrder(x.value, ops[1..], op);
      } else {
        assert Shunted(atoms, ops, op) == Err(NoSuchElement);
      }
    } else {
      assert Shunted(atoms, ops, op) == Ok((atoms, [op] + ops));
      PushOrdered(ops, op);
    }
  }

  /** Popping keeps the stack ordered, down to the sentinel. */
  lemma TailOrdered(ops: seq<char>)
    requires SentinelStack(ops) && |ops| >= 2
    ensures SentinelStack(ops[1..])
  {
  }

  /** Pushing an operator that does not outrank the top keeps the stack ordered. */
  lemma PushOrdered(ops: seq<char>, op: char)
    requires SentinelStack(ops) && Precedence(op) <= Precedence(ops[0])
    ensures SentinelStack([op] + ops)
  {
    var o := [op] + ops;
    assert forall j :: 1 <= j < |o| ==> o[j] == ops[j - 1];
    forall i, j | 0 <= i < j < |o| ensures Precedence(o[i]) <= Precedence(o[j]) {
      if i == 0 && j > 1 { assert Precedence(ops[0]) <= Precedence(ops[j - 1]); }
    }
  }

  // ------------------------------------------------------------ readNonNegInt

  /** c is one of the ten decimal digits whose zero is the code point zero. */
  predicate DigitBlock(c: char, zero: int)
  {
    zero <= c as int < zero + 10
  }

  /**
   * `Character.isDigit` on a `char`: the decimal digits (Unicode general
   * category Nd) of the Basic Multilingual Plane, ten to a block. Its value,
   * as `toInt` computes it, is the char minus `'0'` for every one of them.
   */
  predicate IsDigit(c: char)
  {
    DigitBlock(c, 0x30) || DigitBlock(c, 0x660) || DigitBlock(c, 0x6F0) || DigitBlock(c, 0x7C0) ||
    DigitBlock(c, 0x966) || DigitBlock(c, 0x9E6) || DigitBlock(c, 0xA66) || DigitBlock(c, 0xAE6) ||
    DigitBlock(c, 0xB66) || DigitBlock(c, 0xBE6) || DigitBlock(c, 0xC66) || DigitBlock(c, 0xCE6) ||
    DigitBlock(c, 0xD66) || DigitBlock(c, 0xDE6) || DigitBlock(c, 0xE50) || DigitBlock(c, 0xED0) ||
    DigitBlock(c, 0xF20) || DigitBlock(c, 0x1040) || DigitBlock(c, 0x1090) || DigitBlock(c, 0x17E0) ||
    DigitBlock(c, 0x1810) || DigitBlock(c, 0x1946) || DigitBlock(c, 0x19D0) || DigitBlock(c, 0x1A80) ||
    DigitBlock(c, 0x1A90) || DigitBlock(c, 0x1B50) || DigitBlock(c, 0x1BB0) || DigitBlock(c, 0x1C40) ||
    DigitBlock(c, 0x1C50) || DigitBlock(c, 0xA620) || DigitBlock(c, 0xA8D0) || DigitBlock(c, 0xA900) ||
    DigitBlock(c, 0xA9D0) || DigitBlock(c, 0xA9F0) || DigitBlock(c, 0xAA50) || DigitBlock(c, 0xABF0) ||
    DigitBlock(c, 0xFF10)
  }

  /**
   * The chars `readPrimitive` reads as the start of an atomic mass: its
   * switch lists only the ASCII digits `'0'` to `'9'`, so any other decimal
   * digit starts no primitive.
   */
  predicate MassDigit(c: char)
  {
    '0' <= c <= '9'
  }

  /** The number of digits from pos on. */
  function DigitRun(s: seq<char>, pos: nat): (n: nat)
    requires pos <= |s|
    ensures pos + n <= |s| && forall i :: pos <= i < pos + n ==> IsDigit(s[i])
    ensures pos + n < |s| ==> !IsDigit(s[pos + n])
    decreases |s| - pos
  {
    if pos < |s| && IsDigit(s[pos]) then 1 + DigitRun(s, pos + 1) else 0
  }

  lemma {:induction false} DigitRunAt(s: seq<char>, pos: nat, n: nat)
    requires pos + n <= |s| && forall i :: pos <= i < pos + n ==> IsDigit(s[i])
    requires pos + n < |s| ==> !IsDigit(s[pos + n])
    ensures DigitRun(s, pos) == n
    decreases n
  {
    if n > 0 {
      DigitRunAt(s, pos + 1, n - 1);
    }
  }

  /** `num = (num * 10) + toInt(c)` over the digits ds, in `int` arithmetic. */
  function Accumulated(ds: seq<char>): Words.Int32
  {
    if ds == [] then 0
    else Words.ToInt32(Accumulated(ds[..|ds| - 1]) * 10 + (ds[|ds| - 1] as int - '0' as int))
  }

  /**
   * `readNonNegInt` from pos: the accumulated digits and the cursor after
   * them, or -1 when the number is 0 and the last char read is not '0' (no
   * digit at all, or a value that wrapped to 0).
   */
  function NonNegIntAt(s: seq<char>, pos: nat): (r: (Words.Int32, nat))
    requires pos <= |s|
    ensures r.1 == pos + DigitRun(s, pos)
  {
    var n := DigitRun(s, pos);
    var num := Accumulated(s[pos..pos + n]);
    (if num == 0 && (n == 0 || s[pos + n - 1] != '0') then -1 else num, pos + n)
  }

  /** Without wrap-around, the accumulated digits are the number they spell. */
  lemma {:induction false} AccumulatedExact(ds: seq<char>)
    requires AllDigits(ds) && DecimalValue(ds) < 0x8000_0000
    ensures Accumulated(ds) == DecimalValue(ds)
  {
    if ds != [] {
      var init := ds[..|ds| - 1];
      DecimalValuePrefix(ds, |ds| - 1);
      assert AllDigits(init);
      AccumulatedExact(init);
    }
  }

  /**
   * What `readNonNegInt` promises: -1 when no digit follows, and otherwise,
   * while the digits spell a number below 2^31, that number.
   */
  lemma NonNegIntValue(s: seq<char>, pos: nat)
    requires pos <= |s|
    ensures DigitRun(s, pos) == 0 ==> NonNegIntAt(s, pos).0 == -1
    ensures var n := DigitRun(s, pos);
      n > 0 && AllDigits(s[pos..pos + n]) && DecimalValue(s[pos..pos + n]) < 0x8000_0000 ==> NonNegIntAt(s, pos).0 == DecimalValue(s[pos..pos + n])
  {
    var n := DigitRun(s, pos);
    var run := s[pos..pos + n];
    if n > 0 && AllDigits(run) && DecimalValue(run) < 0x8000_0000 {
      AccumulatedExact(run);
      DecimalValuePrefix(run, n - 1);
    }
  }

  /** The digits of 2^32. */
  const TwoTo32: seq<char> := "4294967296"

  lemma AccumulateTwoTo32Low()
    ensures Accumulated(TwoTo32[..5]) == 42949
  {
    var s := TwoTo32;
    assert s[..1][..0] == s[..0] && Accumulated(s[..1]) == 4;
    assert s[..2][..1] == s[..1] && Accumulated(s[..2]) == 42;
    assert s[..3][..2] == s[..2] && Accumulated(s[..3]) == 429;
    assert s[..4][..3] == s[..3] && Accumulated(s[..4]) == 4294;
    assert s[..5][..4] == s[..4] && Accumulated(s[..5]) == 42949;
  }

  lemma AccumulateTwoTo32()
    ensures Accumulated(TwoTo32) == 0
  {
    var s := TwoTo32;
    AccumulateTwoTo32Low();
    assert s[..6][..5] == s[..5] && Accumulated(s[..6]) == 429496;
    assert s[..7][..6] == s[..6] && Accumulated(s[..7]) == 4294967;
    assert s[..8][..7] == s[..7] && Accumulated(s[..8]) == 42949672;
    assert s[..9][..8] == s[..8] && Accumulated(s[..9]) == 429496729;
    assert s[..10] == s && s[..10][..9] == s[..9];
  }

  /** 2^32 has a last digit of 6 but wraps to 0, so "4294967296" reads as -1. */
  lemma WrappedToMinusOne()
    ensures NonNegIntAt(TwoTo32, 0).0 == -1
  {
    DigitRunAt(TwoTo32, 0, 10);
    assert TwoTo32[0..10] == TwoTo32;
    AccumulateTwoTo32();
  }

  /** `readNonNegInt(buffer)`: the loop over the digits after the cursor. */
  method ReadNonNegInt(buf: CharBuffer) returns (v: Words.Int32)
    requires buf.Valid()
    modifies buf`position
    ensures buf.Valid()
    ensures (v, buf.position) == NonNegIntAt(buf.data, old(buf.position))
  {
    ghost var start := buf.position;
    var num: Words.Int32 := 0;
    var c: char := 0 as char;
    while buf.HasRemaining() && IsDigit(buf.data[buf.position])
      invariant buf.Valid() && start <= buf.position
      invariant forall i :: start <= i < buf.position ==> IsDigit(buf.data[i])
      invariant num == Accumulated(buf.data[start..buf.position])
      invariant c == if buf.position == start then 0 as char else buf.data[buf.position - 1]
      decreases |buf.data| - buf.position
    {
      var g := buf.Get();
      c := g.value;
      num := Words.ToInt32(num * 10 + (c as int - '0' as int));
      assert buf.data[start..buf.position][..buf.position - 1 - start] == buf.data[start..buf.position - 1];
    }
    DigitRunAt(buf.data, start, buf.position - start);
    v := if num == 0 && c != '0' then -1 else num;
  }

  // ------------------------------------------------------------ readPrimitive

  /** The chars other than digits that `readPrimitive` switches on. */
  predicate PrimitiveChar(c: char)
  {
    c == 'A' || c == 'a' || c == 'C' || c == 'N' || c == 'O' || c == 'P' || c == 'S' ||
    c == 'c' || c == 'n' || c == 'o' || c == 'p' || c == 's' ||
    c == '#' || c == 'X' || c == 'x' || c == 'D' || c == 'H' || c == 'h' ||
    c == 'R' || c == 'r' || c == 'v' || c == '^' || c == '+' || c == '-'
  }

  /**
   * `readPrimitive` with the cursor at pos, just past the primitive's first
   * char: the primitive and the cursor after it. A digit is backed up over and
   * read as a mass only when it is an ASCII digit; `-` negates the number after it in `int` arithmetic; any
   * other char is the "Unknown atom primitive" `IOException`.
   */
  function PrimitiveAt(s: seq<char>, pos: nat): (r: Result<(Primitive, nat), Exception>)
    requires 1 <= pos <= |s|
    ensures r.Ok? ==> pos <= r.value.1 <= |s|
    ensures r.Err? <==> !MassDigit(s[pos - 1]) && !PrimitiveChar(s[pos - 1])
    ensures r.Err? ==> r.error == UnknownAtomPrimitive
  {
    var c := s[pos - 1];
    var (n, next) := NonNegIntAt(s, pos);
    match c
    case 'A' => Ok((Aliphatic, pos))
    case 'a' => Ok((Aromatic, pos))
    case 'C' => Ok((AliphaticElement(6), pos))
    case 'N' => Ok((AliphaticElement(7), pos))
    case 'O' => Ok((AliphaticElement(8), pos))
    case 'P' => Ok((AliphaticElement(15), pos))
    case 'S' => Ok((AliphaticElement(16), pos))
    case 'c' => Ok((AromaticElement(6), pos))
    case 'n' => Ok((AromaticElement(7), pos))
    case 'o' => Ok((AromaticElement(8), pos))
    case 'p' => Ok((AromaticElement(15), pos))
    case 's' => Ok((AromaticElement(16), pos))
    case '#' => Ok((AtomicNumber(n), next))
    case 'X' => Ok((TotalConnections(n), next))
    case 'x' => Ok((RingConnections(n), next))
    case 'D' => Ok((Degree(n), next))
    case 'H' => Ok((TotalHCount(n), next))
    case 'h' => Ok((ImplicitHCount(n), next))
    case 'R' => Ok((RingMembership(n), next))
    case 'r' => Ok((SmallestRing(n), next))
    case 'v' => Ok((Valence(n), next))
    case '^' => Ok((Hybridisation(n), next))
    case '+' => Ok((Charge(n), next))
    case '-' => Ok((Charge(Words.ToInt32(-(n as int))), next))
    case _ =>
      if MassDigit(c) then
        var (m, end) := NonNegIntAt(s, pos - 1);
        Ok((Mass(m), end))
      else Err(UnknownAtomPrimitive)
  }

  /** `readPrimitive(buffer)`, switching on the char just read. */
  method ReadPrimitive(buf: CharBuffer) returns (r: Result<Primitive, Exception>)
    requires buf.Valid() && 1 <= buf.position
    modifies buf`position
    ensures buf.Valid()
    ensures var q := PrimitiveAt(buf.data, old(buf.position));
      (q.Ok? ==> r == Ok(q.value.0) && buf.position == q.value.1) && (q.Err? ==> r == Err(q.error))
  {
    var c := buf.data[buf.position - 1];
    match c
    case 'A' => return Ok(Aliphatic);
    case 'a' => return Ok(Aromatic);
    case 'C' => return Ok(AliphaticElement(6));
    case 'N' => return Ok(AliphaticElement(7));
    case 'O' => return Ok(AliphaticElement(8));
    case 'P' => return Ok(AliphaticElement(15));
    case 'S' => return Ok(AliphaticElement(16));
    case 'c' => return Ok(AromaticElement(6));
    case 'n' => return Ok(AromaticElement(7));
    case 'o' => return Ok(AromaticElement(8));
    case 'p' => return Ok(AromaticElement(15));
    case 's' => return Ok(AromaticElement(16));
    case '#' => var n := ReadNonNegInt(buf); return Ok(AtomicNumber(n));
    case 'X' => var n := ReadNonNegInt(buf); return Ok(TotalConnections(n));
    case 'x' => var n := ReadNonNegInt(buf); return Ok(RingConnections(n));
    case 'D' => var n := ReadNonNegInt(buf); return Ok(Degree(n));
    case 'H' => var n := ReadNonNegInt(buf); return Ok(TotalHCount(n));
    case 'h' => var n := ReadNonNegInt(buf); return Ok(ImplicitHCount(n));
    case 'R' => var n := ReadNonNegInt(buf); return Ok(RingMembership(n));
    case 'r' => var n := ReadNonNegInt(buf); return Ok(SmallestRing(n));
    case 'v' => var n := ReadNonNegInt(buf); return Ok(Valence(n));
    case '^' => var n := ReadNonNegInt(buf); return Ok(Hybridisation(n));
    case '+' => var n := ReadNonNegInt(buf); return Ok(Charge(n));
    case '-' => var n := ReadNonNegInt(buf); return Ok(Charge(Words.ToInt32(-(n as int))));
    case _ =>
      if MassDigit(c) {
        buf.position := buf.position - 1;
        var n := ReadNonNegInt(buf);
        return Ok(Mass(n));
      }
      return Err(UnknownAtomPrimitive);
  }

  /**
   * A sign with no digits after it uses the -1 of `readNonNegInt` as the
   * charge: a bare `+` is charge -1 and a bare `-` is charge +1.
   */
  lemma BareSignCharges(s: seq<char>, pos: nat)
    requires 1 <= pos <= |s| && (pos == |s| || !IsDigit(s[pos]))
    ensures s[pos - 1] == '+' ==> PrimitiveAt(s, pos) == Ok((Charge(-1), pos))
    ensures s[pos - 1] == '-' ==> PrimitiveAt(s, pos) == Ok((Charge(1), pos))
  {
    DigitRunAt(s, pos, 0);
  }

  // ------------------------------------------------------------ parse

  /** The operators left on the stack applied in turn, top first. */
  function ApplyAll(ops: seq<char>, atoms: seq<Expr>): Result<seq<Expr>, Exception>
  {
    if ops == [] then Ok(atoms)
    else
      match Apply(ops[0], atoms)
      case Err(e) => Err(e)
      case Ok(a) => ApplyAll(ops[1..], a)
  }

  /** The end of `parse`: apply what is stacked, then pop the result. */
  function Finish(atoms: seq<Expr>, ops: seq<char>): Result<Expr, Exception>
  {
    match ApplyAll(ops, atoms)
    case Err(e) => Err(e)
    case Ok(a) => if a == [] then Err(NoSuchElement) else Ok(a[0])
  }

  /** The main loop of `parse` from pos on, with the two stacks as they stand there. */
  function Run(s: seq<char>, pos: nat, atoms: seq<Expr>, ops: seq<char>): Result<Expr, Exception>
    requires pos <= |s|
    decreases |s| - pos
  {
    if pos == |s| then Finish(atoms, ops)
    else if IsOperator(s[pos]) then
      match Shunted(atoms, ops, s[pos])
      case Err(e) => Err(e)
      case Ok((a, o)) => Run(s, pos + 1, a, o)
    else
      match PrimitiveAt(s, pos + 1)
      case Err(e) => Err(e)
      case Ok((p, next)) => Run(s, next, [Prim(p)] + atoms, ops)
  }

  /** `parse(str)`: the query atom of a SMARTS atom expression. */
  method Parse(str: seq<char>) returns (r: Result<Expr, Exception>)
    ensures r == Run(str, 0, [], [Sentinel])
  {
    var buf := new CharBuffer(str);
    var primitives: seq<Expr> := [];
    var operators: seq<char> := [Sentinel];
    while buf.HasRemaining()
      invariant buf.Valid() && buf.data == str
      invariant Run(str, 0, [], [Sentinel]) == Run(str, buf.position, primitives, operators)
      decreases |str| - buf.position
    {
      var g := buf.Get();
      var c := g.value;
      if IsOperator(c) {
        var x := Shunt(primitives, operators, c);
        if x.Err? {
          return Err(x.error);
        }
        primitives, operators := x.value.0, x.value.1;
      } else {
        var p := ReadPrimitive(buf);
        if p.Err? {
          return Err(p.error);
        }
        primitives := [Prim(p.value)] + primitives;
      }
    }
    while operators != []
      invariant Run(str, 0, [], [Sentinel]) == Finish(primitives, operators)
      decreases |operators|
    {
      var op := operators[0];
      operators := operators[1..];
      var x := Apply(op, primitives);
      if x.Err? {
        return Err(x.error);
      }
      primitives := x.value;
    }
    if primitives == [] {
      return Err(NoSuchElement);
    }
    r := Ok(primitives[0]);
  }

  // ------------------------------------------------------------ what parse computes

  /** The binary operator of grammar level k: `&` binds tightest, then `,`, then `;`. */
  function LevelOp(k: nat): char
    requires 1 <= k <= 3
  {
    if k == 1 then ConjunctionHigh else if k == 2 then Disjunction else ConjunctionLow
  }

  /** The grammar level of a binary operator; 0 for any other char. */
  function Level(c: char): nat
  {
    if c == ConjunctionHigh then 1 else if c == Disjunction then 2 else if c == ConjunctionLow then 3 else 0
  }

  /** The precedence an operator stack must show at its top for a phrase of level k to be read. */
  function LevelPrecedence(k: nat): int
    requires k <= 3
  {
    if k == 0 then Precedence(Negation) else Precedence(LevelOp(k))
  }

  /** A level-k operator builds `and` except at the `,` level. */
  function Combine(k: nat, a: Expr, b: Expr): Expr
  {
    if k == 2 then Disj(a, b) else Conj(a, b)
  }

  /**
   * The SMARTS atom-expression grammar read by recursive descent, as the
   * precedences intend it: a term is `!` term or a primitive, and a phrase of
   * level k is a phrase of level k - 1, optionally followed by the level-k
   * operator and another phrase of level k. The phrase and where it ends.
   */
  function Descent(k: nat, s: seq<char>, pos: nat): (r: Option<(Expr, nat)>)
    requires k <= 3 && pos <= |s|
    ensures r.Some? ==> pos < r.value.1 <= |s|
    decreases |s| - pos, k
  {
    if k == 0 then
      if pos == |s| then None
      else if s[pos] == Negation then
        match Descent(0, s, pos + 1)
        case None => None
        case Some((t, e)) => Some((Neg(t), e))
      else if IsOperator(s[pos]) then None
      else
        match PrimitiveAt(s, pos + 1)
        case Err(_) => None
        case Ok((p, e)) => Some((Prim(p), e))
    else
      match Descent(k - 1, s, pos)
      case None => None
      case Some((t, m)) =>
        if m < |s| && s[m] == LevelOp(k) then
          match Descent(k, s, m + 1)
          case None => None
          case Some((u, e)) => Some((Combine(k, t, u), e))
        else Some((t, m))
  }

  /** The expression the grammar reads from the whole of s, if it does. */
  function Grammatical(s: seq<char>): Option<Expr>
  {
    match Descent(3, s, 0)
    case None => None
    case Some((t, e)) => if e == |s| then Some(t) else None
  }

  /** What may follow a phrase of level k: the end, or an operator of a higher level. */
  predicate Closes(s: seq<char>, e: nat, k: nat)
    requires e <= |s|
  {
    e == |s| || Level(s[e]) > k
  }

  /**
   * With a `!` stacked over a negated phrase's operand, reaching what closes
   * the phrase applies it.
   */
  lemma ReduceNot(s: seq<char>, e: nat, a: Expr, atoms: seq<Expr>, ops: seq<char>)
    requires e <= |s| && Closes(s, e, 0)
    ensures Run(s, e, [a] + atoms, [Negation] + ops) == Run(s, e, [Neg(a)] + atoms, ops)
  {
    assert ([a] + atoms)[1..] == atoms;
    assert Apply(Negation, [a] + atoms) == Ok([Neg(a)] + atoms);
    if e < |s| {
      var c := s[e];
      assert IsOperator(c) && Precedence(Negation) < Precedence(c);
      assert Shunted([a] + atoms, [Negation] + ops, c) == Shunted([Neg(a)] + atoms, ops, c);
    } else {
      assert ApplyAll([Negation] + ops, [a] + atoms) == ApplyAll(ops, [Neg(a)] + atoms);
    }
  }

  /**
   * With a level-k operator stacked over its two operands, reaching what
   * closes the phrase applies it, the top operand on the left.
   */
  lemma ReduceBinary(s: seq<char>, e: nat, k: nat, a: Expr, b: Expr, atoms: seq<Expr>, ops: seq<char>)
    requires 1 <= k <= 3 && e <= |s| && Closes(s, e, k)
    ensures Run(s, e, [a] + ([b] + atoms), [LevelOp(k)] + ops) == Run(s, e, [Combine(k, a, b)] + atoms, ops)
  {
    var op := LevelOp(k);
    assert ([a] + ([b] + atoms))[2..] == atoms;
    assert Apply(op, [a] + ([b] + atoms)) == Ok([Combine(k, a, b)] + atoms);
    if e < |s| {
      var c := s[e];
      assert IsOperator(c) && Precedence(op) < Precedence(c);
      assert Shunted([a] + ([b] + atoms), [op] + ops, c) == Shunted([Combine(k, a, b)] + atoms, ops, c);
    } else {
      assert ApplyAll([op] + ops, [a] + ([b] + atoms)) == ApplyAll(ops, [Combine(k, a, b)] + atoms);
    }
  }

  /** An operator that does not outrank the stacked one is stacked over it. */
  lemma RunShift(s: seq<char>, pos: nat, atoms: seq<Expr>, ops: seq<char>)
    requires pos < |s| && IsOperator(s[pos]) && ops != [] && Precedence(s[pos]) <= Precedence(ops[0])
    ensures Run(s, pos, atoms, ops) == Run(s, pos + 1, atoms, [s[pos]] + ops)
  {
    assert Shunted(atoms, ops, s[pos]) == Ok((atoms, [s[pos]] + ops));
  }

  /** A primitive is pushed as it is read. */
  lemma RunTerm(s: seq<char>, pos: nat, atoms: seq<Expr>, ops: seq<char>)
    requires pos < |s| && !IsOperator(s[pos]) && PrimitiveAt(s, pos + 1).Ok?
    ensures var (p, e) := PrimitiveAt(s, pos + 1).value;
      Run(s, pos, atoms, ops) == Run(s, e, [Prim(p)] + atoms, ops)
  {
  }

  /** The steps of `Descent` at level 0. */
  lemma DescentZero(s: seq<char>, pos: nat)
    requires pos <= |s| && Descent(0, s, pos).Some?
    ensures pos < |s|
    ensures s[pos] == Negation ==>
              Descent(0, s, pos + 1).Some? &&
              Descent(0, s, pos).value == (Neg(Descent(0, s, pos + 1).value.0), Descent(0, s, pos + 1).value.1)
    ensures s[pos] != Negation ==>
              !IsOperator(s[pos]) && PrimitiveAt(s, pos + 1).Ok? &&
              Descent(0, s, pos).value == (Prim(PrimitiveAt(s, pos + 1).value.0), PrimitiveAt(s, pos + 1).value.1)
  {
  }

  /** The steps of `Descent` above level 0. */
  lemma DescentAbove(k: nat, s: seq<char>, pos: nat)
    requires 1 <= k <= 3 && pos <= |s| && Descent(k, s, pos).Some?
    ensures Descent(k - 1, s, pos).Some?
    ensures var (t1, m) := Descent(k - 1, s, pos).value;
      if m < |s| && s[m] == LevelOp(k) then
        Descent(k, s, m + 1).Some? &&
        Descent(k, s, pos).value == (Combine(k, t1, Descent(k, s, m + 1).value.0), Descent(k, s, m + 1).value.1)
      else Descent(k, s, pos).value == (t1, m)
  {
  }

  /**
   * The shunting-yard loop reads a grammatical phrase of level k as one
   * stacked atom, its mirror image, provided the operator on top of the stack
   * does not bind tighter than level k and the phrase is followed by what may
   * close it.
   */
  lemma {:induction false} PhraseRun(k: nat, s: seq<char>, pos: nat, atoms: seq<Expr>, ops: seq<char>)
    requires k <= 3 && pos <= |s| && Descent(k, s, pos).Some?
    requires Closes(s, Descent(k, s, pos).value.1, k)
    requires ops != [] && LevelPrecedence(k) <= Precedence(ops[0])
    ensures Run(s, pos, atoms, ops) == Run(s, Descent(k, s, pos).value.1, [Mirror(Descent(k, s, pos).value.0)] + atoms, ops)
    decreases |s| - pos, k, 1
  {
    if k == 0 {
      DescentZero(s, pos);
      if s[pos] == Negation {
        NegationRun(s, pos, atoms, ops);
      } else {
        RunTerm(s, pos, atoms, ops);
      }
    } else {
      DescentAbove(k, s, pos);
      var (t1, m) := Descent(k - 1, s, pos).value;
      PhraseRun(k - 1, s, pos, atoms, ops);
      if m < |s| && s[m] == LevelOp(k) {
        BinaryRun(k, s, pos, atoms, ops);
      }
    }
  }

  /** `!` and its term: the term is read onto the atoms with `!` stacked over, and then reduced. */
  lemma {:induction false} NegationRun(s: seq<char>, pos: nat, atoms: seq<Expr>, ops: seq<char>)
    requires pos < |s| && s[pos] == Negation && Descent(0, s, pos + 1).Some?
    requires Closes(s, Descent(0, s, pos + 1).value.1, 0)
    requires ops != [] && LevelPrecedence(0) <= Precedence(ops[0])
    ensures var (u, e) := Descent(0, s, pos + 1).value;
      Run(s, pos, atoms, ops) == Run(s, e, [Neg(Mirror(u))] + atoms, ops)
    decreases |s| - pos, 0, 0
  {
    var (u, e) := Descent(0, s, pos + 1).value;
    RunShift(s, pos, atoms, ops);
    PhraseRun(0, s, pos + 1, atoms, [Negation] + ops);
    ReduceNot(s, e, Mirror(u), atoms, ops);
  }

  /**
   * A level k - 1 phrase already read onto the atoms, then the level-k
   * operator and a level-k phrase: the operator is stacked, the second
   * phrase read, and the pair reduced.
   */
  lemma {:induction false} BinaryRun(k: nat, s: seq<char>, pos: nat, atoms: seq<Expr>, ops: seq<char>)
    requires 1 <= k <= 3 && pos <= |s| && Descent(k - 1, s, pos).Some?
    requires Descent(k - 1, s, pos).value.1 < |s| && s[Descent(k - 1, s, pos).value.1] == LevelOp(k)
    requires Descent(k, s, Descent(k - 1, s, pos).value.1 + 1).Some?
    requires Closes(s, Descent(k, s, Descent(k - 1, s, pos).value.1 + 1).value.1, k)
    requires ops != [] && LevelPrecedence(k) <= Precedence(ops[0])
    ensures var m := Descent(k - 1, s, pos).value.1;
      Run(s, m, [Mirror(Descent(k - 1, s, pos).value.0)] + atoms, ops) ==
      Run(s, Descent(k, s, m + 1).value.1, [Mirror(Combine(k, Descent(k - 1, s, pos).value.0, Descent(k, s, m + 1).value.0))] + atoms, ops)
    decreases |s| - pos, k, 0
  {
    var m := Descent(k - 1, s, pos).value.1;
    var t1 := Descent(k - 1, s, pos).value.0;
    var t2 := Descent(k, s, m + 1).value.0;
    var e := Descent(k, s, m + 1).value.1;
    var op := LevelOp(k);
    var stacked := [Mirror(t1)] + atoms;
    RunShift(s, m, stacked, ops);
    assert LevelPrecedence(k) <= Precedence(([op] + ops)[0]);
    PhraseRun(k, s, m + 1, stacked, [op] + ops);
    ReduceBinary(s, e, k, Mirror(t2), Mirror(t1), atoms, ops);
    assert Mirror(Combine(k, t1, t2)) == Combine(k, Mirror(t2), Mirror(t1));
  }

  /** At the end of the input only the sentinel is left, and the one atom is popped. */
  lemma FinishAlone(s: seq<char>, x: Expr)
    ensures Run(s, |s|, [x], [Sentinel]) == Ok(x)
  {
    assert ApplyAll([Sentinel][1..], [x]) == Ok([x]);
    assert ApplyAll([Sentinel], [x]) == Ok([x]);
  }

  /**
   * On a grammatical expression `parse` succeeds, and its query atom is the
   * grammar's with the operands of every `and` and `or` swapped, which
   * matches exactly the same atoms.
   */
  lemma ParseFollowsGrammar(s: seq<char>)
    requires Grammatical(s).Some?
    ensures Run(s, 0, [], [Sentinel]) == Ok(Mirror(Grammatical(s).value))
    ensures forall holds :: Eval(Mirror(Grammatical(s).value), holds) == Eval(Grammatical(s).value, holds)
  {
    var t := Grammatical(s).value;
    WholePhrase(s);
    assert LevelPrecedence(3) <= Precedence(Sentinel);
    PhraseRun(3, s, 0, [], [Sentinel]);
    assert [Mirror(t)] + [] == [Mirror(t)];
    FinishAlone(s, Mirror(t));
    forall holds {
      MirrorSameMeaning(t, holds);
    }
  }

  /** A grammatical expression is a level-3 phrase that ends at the end of the input. */
  lemma WholePhrase(s: seq<char>)
    requires Grammatical(s).Some?
    ensures Descent(3, s, 0).Some? && Descent(3, s, 0).value == (Grammatical(s).value, |s|)
    ensures Closes(s, |s|, 3)
  {
  }

  // ------------------------------------------------------------ the unit tests' expressions

  /** One step of the grammar each: a number after a primitive's char. */
  lemma DigitsAt(s: seq<char>, pos: nat, n: nat, v: Words.Int32)
    requires 0 < n && pos + n <= |s| && forall i :: pos <= i < pos + n ==> IsDigit(s[i])
    requires pos + n < |s| ==> !IsDigit(s[pos + n])
    requires Accumulated(s[pos..pos + n]) == v && (v != 0 || s[pos + n - 1] == '0')
    ensures NonNegIntAt(s, pos) == (v, pos + n)
  {
    DigitRunAt(s, pos, n);
  }

  /** A single digit, not followed by another, is read as its value. */
  lemma OneDigitAt(s: seq<char>, pos: nat, c: char)
    requires pos < |s| && s[pos] == c && IsDigit(c)
    requires pos + 1 < |s| ==> !IsDigit(s[pos + 1])
    ensures NonNegIntAt(s, pos) == (c as int - '0' as int, pos + 1)
  {
    DigitRunAt(s, pos, 1);
    assert s[pos..pos + 1] == [c];
    assert [c][..0] == [];
    var d := c as int - '0' as int;
    assert Words.U32(d) == d;
    assert Accumulated([c]) == Words.ToInt32(0 * 10 + d) == d;
  }

  /** A primitive is a term. */
  lemma DescentTerm(s: seq<char>, pos: nat, p: Primitive, e: nat)
    requires pos < |s| && !IsOperator(s[pos]) && PrimitiveAt(s, pos + 1) == Ok((p, e))
    ensures Descent(0, s, pos) == Some((Prim(p), e))
  {
  }

  /** `!` before a term is a term. */
  lemma DescentNeg(s: seq<char>, pos: nat, t: Expr, e: nat)
    requires pos < |s| && s[pos] == Negation && Descent(0, s, pos + 1) == Some((t, e))
    ensures Descent(0, s, pos) == Some((Neg(t), e))
  {
  }

  /** A level k - 1 phrase not followed by the level-k operator is a level-k phrase. */
  lemma DescentLift(k: nat, s: seq<char>, pos: nat, t: Expr, m: nat)
    requires 1 <= k <= 3 && pos <= |s| && Descent(k - 1, s, pos) == Some((t, m))
    requires m == |s| || s[m] != LevelOp(k)
    ensures Descent(k, s, pos) == Some((t, m))
  {
  }

  /** A level k - 1 phrase, the level-k operator and a level-k phrase are a level-k phrase. */
  lemma DescentJoin(k: nat, s: seq<char>, pos: nat, t: Expr, m: nat, u: Expr, e: nat)
    requires 1 <= k <= 3 && pos <= |s| && Descent(k - 1, s, pos) == Some((t, m))
    requires m < |s| && s[m] == LevelOp(k) && Descent(k, s, m + 1) == Some((u, e))
    ensures Descent(k, s, pos) == Some((Combine(k, t, u), e))
  {
  }

  /** The phrase is the whole input, so `parse` returns its mirror image. */
  lemma WholeParses(s: seq<char>, t: Expr)
    requires Descent(3, s, 0) == Some((t, |s|))
    ensures Run(s, 0, [], [Sentinel]) == Ok(Mirror(t))
  {
    ParseFollowsGrammar(s);
  }

  /** `O&X1`: aliphatic oxygen and total connections 1, read by the grammar. */
  lemma ConjunctionPhrase(s: seq<char>)
    requires s == "O&X1"
    ensures Descent(3, s, 0) == Some((Conj(Prim(AliphaticElement(8)), Prim(TotalConnections(1))), |s|))
  {
    var o, x := Prim(AliphaticElement(8)), Prim(TotalConnections(1));
    OneDigitAt(s, 3, '1');
    DescentTerm(s, 2, TotalConnections(1), 4);
    DescentLift(1, s, 2, x, 4);
    DescentTerm(s, 0, AliphaticElement(8), 1);
    DescentJoin(1, s, 0, o, 1, x, 4);
    DescentLift(2, s, 0, Conj(o, x), 4);
    DescentLift(3, s, 0, Conj(o, x), 4);
  }

  /** `O&X1`: aliphatic oxygen and total connections 1. */
  lemma TestConjunctionParses(s: seq<char>)
    requires s == "O&X1"
    ensures Run(s, 0, [], [Sentinel]) == Ok(Conj(Prim(TotalConnections(1)), Prim(AliphaticElement(8))))
  {
    ConjunctionPhrase(s);
    WholeParses(s, Conj(Prim(AliphaticElement(8)), Prim(TotalConnections(1))));
  }

  /** `!C&!N`: neither aliphatic carbon nor aliphatic nitrogen, read by the grammar. */
  lemma NegationsPhrase(s: seq<char>)
    requires s == "!C&!N"
    ensures Descent(3, s, 0) == Some((Conj(Neg(Prim(AliphaticElement(6))), Neg(Prim(AliphaticElement(7)))), |s|))
  {
    var c, n := Prim(AliphaticElement(6)), Prim(AliphaticElement(7));
    DescentTerm(s, 4, AliphaticElement(7), 5);
    DescentNeg(s, 3, n, 5);
    DescentLift(1, s, 3, Neg(n), 5);
    DescentTerm(s, 1, AliphaticElement(6), 2);
    DescentNeg(s, 0, c, 2);
    DescentJoin(1, s, 0, Neg(c), 2, Neg(n), 5);
    DescentLift(2, s, 0, Conj(Neg(c), Neg(n)), 5);
    DescentLift(3, s, 0, Conj(Neg(c), Neg(n)), 5);
  }

  /** `!C&!N`: neither aliphatic carbon nor aliphatic nitrogen. */
  lemma TestNegationsParse(s: seq<char>)
    requires s == "!C&!N"
    ensures Run(s, 0, [], [Sentinel]) == Ok(Conj(Neg(Prim(AliphaticElement(7))), Neg(Prim(AliphaticElement(6)))))
  {
    NegationsPhrase(s);
    WholeParses(s, Conj(Neg(Prim(AliphaticElement(6))), Neg(Prim(AliphaticElement(7)))));
  }

  /** The `X3&v4` part of `C,c;X3&v4`. */
  lemma MixedLevelsTail(s: seq<char>)
    requires s == "C,c;X3&v4"
    ensures Descent(3, s, 4) == Some((Conj(Prim(TotalConnections(3)), Prim(Valence(4))), |s|))
  {
    var x, v := Prim(TotalConnections(3)), Prim(Valence(4));
    MixedLevelsLast(s);
    OneDigitAt(s, 5, '3');
    DescentTerm(s, 4, TotalConnections(3), 6);
    DescentJoin(1, s, 4, x, 6, v, 9);
    DescentLift(2, s, 4, Conj(x, v), 9);
    DescentLift(3, s, 4, Conj(x, v), 9);
  }

  /** The last conjunct of `C,c;X3&v4`. */
  lemma MixedLevelsLast(s: seq<char>)
    requires s == "C,c;X3&v4"
    ensures Descent(1, s, 7) == Some((Prim(Valence(4)), |s|))
  {
    OneDigitAt(s, 8, '4');
    DescentTerm(s, 7, Valence(4), 9);
    DescentLift(1, s, 7, Prim(Valence(4)), 9);
  }

  /** `C,c;X3&v4`: carbon of either kind, and three connections with valence 4, read by the grammar. */
  lemma MixedLevelsPhrase(s: seq<char>)
    requires s == "C,c;X3&v4"
    ensures Descent(3, s, 0) == Some((Conj(Disj(Prim(AliphaticElement(6)), Prim(AromaticElement(6))), Conj(Prim(TotalConnections(3)), Prim(Valence(4)))), |s|))
  {
    var cl, ca := Prim(AliphaticElement(6)), Prim(AromaticElement(6));
    var x, v := Prim(TotalConnections(3)), Prim(Valence(4));
    MixedLevelsTail(s);
    DescentTerm(s, 2, AromaticElement(6), 3);
    DescentLift(1, s, 2, ca, 3);
    DescentLift(2, s, 2, ca, 3);
    DescentTerm(s, 0, AliphaticElement(6), 1);
    DescentLift(1, s, 0, cl, 1);
    DescentJoin(2, s, 0, cl, 1, ca, 3);
    DescentJoin(3, s, 0, Disj(cl, ca), 3, Conj(x, v), 9);
  }

  /** `C,c;X3&v4`: carbon of either kind, and three connections with valence 4. */
  lemma TestMixedLevelsParse(s: seq<char>)
    requires s == "C,c;X3&v4"
    ensures Run(s, 0, [], [Sentinel]) ==
      Ok(Conj(Conj(Prim(Valence(4)), Prim(TotalConnections(3))), Disj(Prim(AromaticElement(6)), Prim(AliphaticElement(6)))))
  {
    MixedLevelsPhrase(s);
    WholeParses(s, Conj(Disj(Prim(AliphaticElement(6)), Prim(AromaticElement(6))), Conj(Prim(TotalConnections(3)), Prim(Valence(4)))));
  }

  /** The `!H0&X3` part of `N&!H0&X3`. */
  lemma NegatedCountTail(s: seq<char>)
    requires s == "N&!H0&X3"
    ensures Descent(1, s, 2) == Some((Conj(Neg(Prim(TotalHCount(0))), Prim(TotalConnections(3))), |s|))
  {
    var h, x := Prim(TotalHCount(0)), Prim(TotalConnections(3));
    NegatedCountLast(s);
    OneDigitAt(s, 4, '0');
    DescentTerm(s, 3, TotalHCount(0), 5);
    DescentNeg(s, 2, h, 5);
    DescentJoin(1, s, 2, Neg(h), 5, x, 8);
  }

  /** The last conjunct of `N&!H0&X3`. */
  lemma NegatedCountLast(s: seq<char>)
    requires s == "N&!H0&X3"
    ensures Descent(1, s, 6) == Some((Prim(TotalConnections(3)), |s|))
  {
    OneDigitAt(s, 7, '3');
    DescentTerm(s, 6, TotalConnections(3), 8);
    DescentLift(1, s, 6, Prim(TotalConnections(3)), 8);
  }

  /** `N&!H0&X3`: aliphatic nitrogen, some hydrogen, three connections, read by the grammar. */
  lemma NegatedCountPhrase(s: seq<char>)
    requires s == "N&!H0&X3"
    ensures Descent(3, s, 0) == Some((Conj(Prim(AliphaticElement(7)), Conj(Neg(Prim(TotalHCount(0))), Prim(TotalConnections(3)))), |s|))
  {
    var n, h, x := Prim(AliphaticElement(7)), Prim(TotalHCount(0)), Prim(TotalConnections(3));
    NegatedCountTail(s);
    DescentTerm(s, 0, AliphaticElement(7), 1);
    DescentJoin(1, s, 0, n, 1, Conj(Neg(h), x), 8);
    DescentLift(2, s, 0, Conj(n, Conj(Neg(h), x)), 8);
    DescentLift(3, s, 0, Conj(n, Conj(Neg(h), x)), 8);
  }

  /** `N&!H0&X3`: aliphatic nitrogen, some hydrogen, three connections. */
  lemma TestNegatedCountParses(s: seq<char>)
    requires s == "N&!H0&X3"
    ensures Run(s, 0, [], [Sentinel]) ==
      Ok(Conj(Conj(Prim(TotalConnections(3)), Neg(Prim(TotalHCount(0)))), Prim(AliphaticElement(7))))
  {
    NegatedCountPhrase(s);
    WholeParses(s, Conj(Prim(AliphaticElement(7)), Conj(Neg(Prim(TotalHCount(0))), Prim(TotalConnections(3)))));
  }

  /** `!#6&X4`: not carbon, four connections, read by the grammar. */
  lemma NegatedNumberPhrase(s: seq<char>)
    requires s == "!#6&X4"
    ensures Descent(3, s, 0) == Some((Conj(Neg(Prim(AtomicNumber(6))), Prim(TotalConnections(4))), |s|))
  {
    var z, x := Prim(AtomicNumber(6)), Prim(TotalConnections(4));
    NegatedNumberLast(s);
    OneDigitAt(s, 2, '6');
    DescentTerm(s, 1, AtomicNumber(6), 3);
    DescentNeg(s, 0, z, 3);
    DescentJoin(1, s, 0, Neg(z), 3, x, 6);
    DescentLift(2, s, 0, Conj(Neg(z), x), 6);
    DescentLift(3, s, 0, Conj(Neg(z), x), 6);
  }

  /** The last conjunct of `!#6&X4`. */
  lemma NegatedNumberLast(s: seq<char>)
    requires s == "!#6&X4"
    ensures Descent(1, s, 4) == Some((Prim(TotalConnections(4)), |s|))
  {
    OneDigitAt(s, 5, '4');
    DescentTerm(s, 4, TotalConnections(4), 6);
    DescentLift(1, s, 4, Prim(TotalConnections(4)), 6);
  }

  /** `!#6&X4`: not carbon, four connections. */
  lemma TestNegatedNumberParses(s: seq<char>)
    requires s == "!#6&X4"
    ensures Run(s, 0, [], [Sentinel]) == Ok(Conj(Prim(TotalConnections(4)), Neg(Prim(AtomicNumber(6)))))
  {
    NegatedNumberPhrase(s);
    WholeParses(s, Conj(Neg(Prim(AtomicNumber(6))), Prim(TotalConnections(4))));
  }

  /** The last two alternatives of `O,S,#7,#15`. */
  lemma DisjunctionTail(s: seq<char>)
    requires s == "O,S,#7,#15"
    ensures Descent(2, s, 4) == Some((Disj(Prim(AtomicNumber(7)), Prim(AtomicNumber(15))), 10))
  {
    var n, p := Prim(AtomicNumber(7)), Prim(AtomicNumber(15));
    DisjunctionLast(s);
    OneDigitAt(s, 5, '7');
    DescentTerm(s, 4, AtomicNumber(7), 6);
    DescentLift(1, s, 4, n, 6);
    DescentJoin(2, s, 4, n, 6, p, 10);
  }

  /** The last alternative of `O,S,#7,#15`, a two-digit number. */
  lemma DisjunctionLast(s: seq<char>)
    requires s == "O,S,#7,#15"
    ensures Descent(2, s, 7) == Some((Prim(AtomicNumber(15)), 10))
  {
    var p := Prim(AtomicNumber(15));
    assert s[8..10] == ['1', '5'] && ['1', '5'][..1] == ['1'] && Accumulated(['1', '5']) == 15;
    DigitsAt(s, 8, 2, 15);
    DescentTerm(s, 7, AtomicNumber(15), 10);
    DescentLift(1, s, 7, p, 10);
    DescentLift(2, s, 7, p, 10);
  }

  /** The last three alternatives of `O,S,#7,#15`. */
  lemma DisjunctionMiddle(s: seq<char>)
    requires s == "O,S,#7,#15"
    ensures Descent(2, s, 2) == Some((Disj(Prim(AliphaticElement(16)), Disj(Prim(AtomicNumber(7)), Prim(AtomicNumber(15)))), 10))
  {
    var su := Prim(AliphaticElement(16));
    var n, p := Prim(AtomicNumber(7)), Prim(AtomicNumber(15));
    DisjunctionTail(s);
    DescentTerm(s, 2, AliphaticElement(16), 3);
    DescentLift(1, s, 2, su, 3);
    DescentJoin(2, s, 2, su, 3, Disj(n, p), 10);
  }

  /** `O,S,#7,#15`: oxygen, sulphur, nitrogen or phosphorus, read by the grammar. */
  lemma DisjunctionPhrase(s: seq<char>)
    requires s == "O,S,#7,#15"
    ensures Descent(3, s, 0) == Some((Disj(Prim(AliphaticElement(8)), Disj(Prim(AliphaticElement(16)), Disj(Prim(AtomicNumber(7)), Prim(AtomicNumber(15))))), |s|))
  {
    var o, su := Prim(AliphaticElement(8)), Prim(AliphaticElement(16));
    var n, p := Prim(AtomicNumber(7)), Prim(AtomicNumber(15));
    DisjunctionMiddle(s);
    DescentTerm(s, 0, AliphaticElement(8), 1);
    DescentLift(1, s, 0, o, 1);
    DescentJoin(2, s, 0, o, 1, Disj(su, Disj(n, p)), 10);
    DescentLift(3, s, 0, Disj(o, Disj(su, Disj(n, p))), 10);
  }

  /** `O,S,#7,#15`: oxygen, sulphur, nitrogen or phosphorus. */
  lemma TestDisjunctionParses(s: seq<char>)
    requires s == "O,S,#7,#15"
    ensures Run(s, 0, [], [Sentinel]) ==
      Ok(Disj(Disj(Disj(Prim(AtomicNumber(15)), Prim(AtomicNumber(7))), Prim(AliphaticElement(16))), Prim(AliphaticElement(8))))
  {
    DisjunctionPhrase(s);
    WholeParses(s, Disj(Prim(AliphaticElement(8)), Disj(Prim(AliphaticElement(16)), Disj(Prim(AtomicNumber(7)), Prim(AtomicNumber(15))))));
  }

  // ------------------------------------------------------------ digits beyond ASCII

  /**
   * `#` and ARABIC-INDIC DIGIT THREE (U+0663): `isDigit` accepts the char and
   * `toInt` takes it as 0x663 - 0x30, so the atomic number read is 1587.
   */
  lemma ArabicIndicDigitPhrase(s: seq<char>)
    requires s == ['#', '\U{0663}']
    ensures Descent(3, s, 0) == Some((Prim(AtomicNumber(1587)), |s|))
  {
    var t := Prim(AtomicNumber(1587));
    OneDigitAt(s, 1, '\U{0663}');
    DescentTerm(s, 0, AtomicNumber(1587), 2);
    DescentLift(1, s, 0, t, 2);
    DescentLift(2, s, 0, t, 2);
    DescentLift(3, s, 0, t, 2);
  }

  /** `parse` of `#` and U+0663 is the atomic number 1587, not an error. */
  lemma ArabicIndicDigitParses(s: seq<char>)
    requires s == ['#', '\U{0663}']
    ensures Run(s, 0, [], [Sentinel]) == Ok(Prim(AtomicNumber(1587)))
  {
    ArabicIndicDigitPhrase(s);
    WholeParses(s, Prim(AtomicNumber(1587)));
  }

  /**
   * ARABIC-INDIC DIGIT THREE alone: `isDigit` accepts it, but no case of
   * `readPrimitive`'s switch does, so `parse` fails with "Unknown atom
   * primitive" rather than reading a mass.
   */
  lemma ArabicIndicDigitNoMass(s: seq<char>)
    requires s == ['\U{0663}']
    ensures IsDigit(s[0]) && !MassDigit(s[0])
    ensures Run(s, 0, [], [Sentinel]) == Err(UnknownAtomPrimitive)
  {
    assert !IsOperator(s[0]);
    assert PrimitiveAt(s, 1) == Err(UnknownAtomPrimitive);
  }

  /**
   * `1` and U+0663: the mass starts at the ASCII `1`, and `readNonNegInt`
   * then reads U+0663 as a further digit of value 0x663 - 0x30, so the mass
   * is 10 + 1587.
   */
  lemma ArabicIndicDigitInMass(s: seq<char>)
    requires s == ['1', '\U{0663}']
    ensures Run(s, 0, [], [Sentinel]) == Ok(Prim(Mass(1597)))
  {
    var t := Prim(Mass(1597));
    assert s[0..2] == s && s[..1] == ['1'] && ['1'][..0] == [];
    assert Accumulated(['1']) == 1;
    assert Accumulated(s) == Words.ToInt32(1 * 10 + 1587) == 1597;
    DigitsAt(s, 0, 2, 1597);
    assert PrimitiveAt(s, 1) == Ok((Mass(1597), 2));
    DescentTerm(s, 0, Mass(1597), 2);
    DescentLift(1, s, 0, t, 2);
    DescentLift(2, s, 0, t, 2);
    DescentLift(3, s, 0, t, 2);
    WholeParses(s, t);
  }
}
