/** Index expressions (LibKernelExpr/include/IndexExpr, LibKernelExpr/src/IndexExpr). A null child is Nil.
    The type parameter is the representation of floating-point constants: exact reals in the region
    analysis, bit patterns in the serialised form. */
module IndexExprs {

  datatype Option<+T> = None | Some(value: T)

  datatype Val<F> = Long(n: int) | Float(f: F) | Double(d: F)

  datatype OclFunction = GlobalId | LocalId | GlobalSize | LocalSize | GroupId | NumGroups

  datatype BinOp = Add | Sub | Mul | Div | Mod | Or | Xor | And | Shl | Shr

  datatype CastOp = F2D | D2F | I2F | F2I | I2D | D2I | FLOOR

  datatype Expr<F> =
    | Nil
    | Value(v: Val<F>)
    | Cast(cast: CastOp, e: Expr<F>)
    | Arg(name: string, pos: nat, value: Option<Val<F>>)
    | Ocl(fun: OclFunction, dim: Expr<F>)
    | Binop(op: BinOp, e1: Expr<F>, e2: Expr<F>)
    | Interval(lo: Expr<F>, hi: Expr<F>)
    | Unknown(text: string)
    | Min(es: seq<Expr<F>>)
    | Max(es: seq<Expr<F>>)
    | Lb(e: Expr<F>)
    | Hb(e: Expr<F>)
    | Indir(no: nat, lo: Expr<F>, hi: Expr<F>)

  datatype Predicate = LT | LE | GE | GT | EQ | NEQ

  // A guard: an OpenCL id compared with an expression; `value` is set once the expression has a known value.
  datatype Guard<F> = Guard(fun: OclFunction, dim: nat, pred: Predicate, expr: Expr<F>, value: Option<int>)

  function Compare(p: Predicate, a: int, b: int): bool {
    match p
    case LT => a < b
    case LE => a <= b
    case GE => a >= b
    case GT => a > b
    case EQ => a == b
    case NEQ => a != b
  }

  // The value of an indirection read back for a sub-kernel.
  datatype IndirectionValue<F> = IndirectionValue(id: nat, lb: Val<F>, hb: Val<F>)
}
