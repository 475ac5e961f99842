/** The values of the language and the operators of src/interpret.c on them. */
module Values {
  import opened Bytes

  /** A VALUE_t: a type tag and a 64-bit payload. A nil keeps whatever payload its slot held. */
  datatype Value = Int(i: Word) | Str(s: Text) | Nil(bits: Word) | Bool(b: Word)

  /**
   * What the C program leaves unspecified, as arbitrary streams: the bits of a char pointer when
   * an operator uses one as a number, and the old contents of stack slots that become locals.
   */
  datatype Unspecified = Unspecified(address: nat -> Word, slot: nat -> Value)

  datatype BinOp = Eq | Ne | Or | And | Lt | Le | Gt | Ge | Add | Sub | Mul | Div

  const NIL: Value := Nil(0)

  function Truth(b: bool): Value { Bool(if b then 1 else 0) }

  /** The payload read as a number; a string's payload is its address. */
  function Payload(v: Value, address: Word): Word {
    match v
    case Int(i) => i
    case Str(_) => address
    case Nil(bits) => bits
    case Bool(b) => b
  }

  /** C division truncates toward zero. */
  function Quotient(a: int, b: int): int
    requires b != 0
  {
    if a >= 0 then a / b else -((-a) / b)
  }

  /** convert_to_bool: every string is true here, even the empty one. */
  function ToBool(v: Value): Value {
    match v
    case Bool(_) => v
    case Int(i) => Truth(i != 0)
    case Str(_) => Truth(true)
    case Nil(_) => Truth(false)
  }

  /** op_jumpfalse: an empty string is false here. */
  predicate IsTrue(v: Value) {
    match v
    case Bool(b) => b != 0
    case Int(i) => i != 0
    case Str(s) => s != []
    case Nil(_) => false
  }

  /** Both ints, or both bools: the operands an ordering accepts. */
  predicate Ordered(v1: Value, v2: Value) {
    (v1.Int? && v2.Int?) || (v1.Bool? && v2.Bool?)
  }

  function Add2(v2: Value, v1: Value): Value {
    if (v1.Nil? || v1.Int?) && (v2.Nil? || v2.Int?) then Int(Wrap64(Payload(v2, 0) + Payload(v1, 0)))
    else if v1.Str? && v2.Str? then Str(v2.s + v1.s)
    else NIL
  }

  /** Subtraction, multiplication and division look at the type of the top operand only. */
  function Arith(op: BinOp, v2: Value, v1: Value, address: Word): Value
    requires op in {Sub, Mul, Div}
  {
    if v1.Int? then
      var x := Payload(v2, address);
      match op
      case Sub => Int(Wrap64(x - v1.i))
      case Mul => Int(Wrap64(x * v1.i))
      case _ => if v1.i == 0 then Int(0) else Int(Wrap64(Quotient(x, v1.i)))
    else if op == Div then Int(0)
    else NIL
  }

  predicate Equal(v2: Value, v1: Value) {
    (v1.Int? && v2.Int? && v1.i == v2.i) || (v1.Str? && v2.Str? && v1.s == v2.s)
    || (v1.Bool? && v2.Bool? && v1.b == v2.b)
  }

  /** Two nils are neither equal nor unequal. */
  predicate NotEqual(v2: Value, v1: Value) {
    (v1.Int? && v2.Int? && v1.i != v2.i) || (v1.Str? && v2.Str? && v1.s != v2.s)
    || (v1.Bool? && v2.Bool? && v1.b != v2.b)
    || (v1.Int? != v2.Int?) || (v1.Str? != v2.Str?) || (v1.Bool? != v2.Bool?)
  }

  /** v2 is the operand pushed first; v1 is the top of the stack. */
  function Apply(op: BinOp, v2: Value, v1: Value, address: Word): Value {
    match op
    case Eq => Truth(Equal(v2, v1))
    case Ne => Truth(NotEqual(v2, v1))
    case Or => Truth(ToBool(v1).b != 0 || ToBool(v2).b != 0)
    case And => Truth(ToBool(v1).b != 0 && ToBool(v2).b != 0)
    case Lt => Truth(Ordered(v1, v2) && Payload(v2, 0) < Payload(v1, 0))
    case Le => Truth(Ordered(v1, v2) && Payload(v2, 0) <= Payload(v1, 0))
    case Gt => Truth(Ordered(v1, v2) && Payload(v2, 0) > Payload(v1, 0))
    case Ge => Truth(Ordered(v1, v2) && Payload(v2, 0) >= Payload(v1, 0))
    case Add => Add2(v2, v1)
    case _ => Arith(op, v2, v1, address)
  }

  function Negate(v: Value): Value {
    if v.Int? then Int(Wrap64(0 - v.i)) else v
  }

  function LogicalNot(v: Value): Value {
    match v
    case Bool(b) => Truth(b == 0)
    case Int(i) => Truth(i == 0)
    case Nil(_) => Truth(true)
    case Str(_) => Truth(false)
  }

  function Increment(v: Value, delta: int): Value {
    if v.Int? then Int(Wrap64(v.i + delta)) else v
  }
}
