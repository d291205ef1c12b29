/** Runtime values, their types, and `make_list`. */
module ExprValues {
  import opened Wrappers
  import opened IntRanges
  import Ranges = RangeExprs
  import opened ExprTypes

  datatype PathFormat = Posix | Windows | UriFormat

  type ValidRange = r: Ranges.RangeExpr | Ranges.ValidExpr(r) witness Ranges.EmptyExpr

  /** Doubles are modelled as reals, without their preserved spelling. */
  datatype Value =
    | Null
    | BoolValue(b: bool)
    | IntValue(i: i64)
    | FloatValue(f: real)
    | StringValue(s: string)
    | PathValue(path: string, format: PathFormat)
    | ListBool(bools: seq<bool>)
    | ListInt(ints: seq<i64>)
    | ListFloat(floats: seq<real>)
    | ListString(strings: seq<string>)
    | ListPath(paths: seq<string>, pathFormat: PathFormat)
    | ListList(elements: seq<Value>, elemType: ExprType)
    | RangeValue(r: ValidRange)
    | UnresolvedValue(t: ExprType)

  /** What the source takes from the platform or from code outside this model: number parsing
      and rounding, text of floats, case folding, path separators. */
  datatype Host = Host(
    parseInt: string -> Option<i64>,
    parseFloat: string -> Option<real>,
    parseRange: string -> Option<ValidRange>,
    intToFloat: i64 -> real,
    showFloat: real -> string,
    showRange: ValidRange -> string,
    showValue: Value -> string,
    toLower: string -> string,
    normalizePath: (string, PathFormat) -> string,
    hostFormat: PathFormat)

  function NewPath(h: Host, s: string, format: PathFormat): Value {
    PathValue(h.normalizePath(s, format), format)
  }

  predicate IsList(v: Value) {
    v.ListBool? || v.ListInt? || v.ListFloat? || v.ListString? || v.ListPath? || v.ListList?
  }

  function ListElemType(v: Value): Option<ExprType> {
    match v
    case ListBool(_) => Some(Bool)
    case ListInt(_) => Some(Int)
    case ListFloat(_) => Some(Float)
    case ListString(_) => Some(String)
    case ListPath(_, _) => Some(Path)
    case ListList(_, et) => Some(et)
    case _ => None
  }

  function ListElements(h: Host, v: Value): (es: seq<Value>)
    requires IsList(v)
  {
    match v
    case ListBool(s) => seq(|s|, i requires 0 <= i < |s| => BoolValue(s[i]))
    case ListInt(s) => seq(|s|, i requires 0 <= i < |s| => IntValue(s[i]))
    case ListFloat(s) => seq(|s|, i requires 0 <= i < |s| => FloatValue(s[i]))
    case ListString(s) => seq(|s|, i requires 0 <= i < |s| => StringValue(s[i]))
    case ListPath(s, fmt) => seq(|s|, i requires 0 <= i < |s| => NewPath(h, s[i], fmt))
    case ListList(es, _) => es
  }

  function TypeOf(v: Value): ExprType {
    match v
    case Null => NullType
    case BoolValue(_) => Bool
    case IntValue(_) => Int
    case FloatValue(_) => Float
    case StringValue(_) => String
    case PathValue(_, _) => Path
    case ListBool(_) => List(Bool)
    case ListInt(_) => List(Int)
    case ListFloat(_) => List(Float)
    case ListString(_) => List(String)
    case ListPath(_, _) => List(Path)
    case ListList(_, et) => MakeList(et)
    case RangeValue(_) => RangeExpr
    case UnresolvedValue(t) => MakeUnresolved(t)
  }

  /** A concrete value as the constructors build it: nothing unresolved inside. */
  ghost predicate ConcreteValue(v: Value)
    decreases v
  {
    match v
    case UnresolvedValue(_) => false
    case ListList(es, et) => Normal(et) && !et.Unresolved? && forall i :: 0 <= i < |es| ==> ConcreteValue(es[i])
    case _ => true
  }

  // ---- make_list ----

  predicate IsEmptyList(v: Value) {
    v.ListList? && v.elements == [] && v.elemType == NullType
  }

  /** The variant of the first typed list, which untyped empty lists will follow. */
  function SiblingVariant(es: seq<Value>): Option<ExprType> {
    if es == [] then None
    else match es[0]
      case ListBool(v) => if v != [] then Some(Bool) else SiblingVariant(es[1..])
      case ListInt(v) => if v != [] then Some(Int) else SiblingVariant(es[1..])
      case ListFloat(_) => Some(Float)
      case ListString(v) => if v != [] then Some(String) else SiblingVariant(es[1..])
      case ListPath(v, _) => if v != [] then Some(Path) else SiblingVariant(es[1..])
      case _ => SiblingVariant(es[1..])
  }

  function TypedEmpty(h: Host, variant: ExprType): Value {
    match variant
    case Bool => ListBool([])
    case Int => ListInt([])
    case Float => ListFloat([])
    case String => ListString([])
    case Path => ListPath([], h.hostFormat)
    case List(_) => ListList([], variant)
    case _ => ListList([], NullType)
  }

  function Map(es: seq<Value>, f: Value -> Value): (r: seq<Value>)
    ensures |r| == |es|
  {
    seq(|es|, i requires 0 <= i < |es| => f(es[i]))
  }

  function FillEmpties(h: Host, es: seq<Value>): (r: seq<Value>)
    ensures |r| == |es|
  {
    match SiblingVariant(es)
    case None => es
    case Some(variant) => Map(es, e => if IsEmptyList(e) then TypedEmpty(h, variant) else e)
  }

  function PromoteInt(h: Host, e: Value): Value {
    if e.IntValue? then FloatValue(h.intToFloat(e.i)) else e
  }

  function PromoteInts(h: Host, e: Value): Value {
    if e.ListInt? then ListFloat(seq(|e.ints|, i requires 0 <= i < |e.ints| => h.intToFloat(e.ints[i]))) else e
  }

  function PromotePaths(e: Value): Value {
    if e.ListPath? then ListString(e.paths) else e
  }

  /** `write_display`. */
  function Display(h: Host, e: Value): string {
    match e case StringValue(s) => s case PathValue(p, _) => p case _ => h.showValue(e)
  }

  /** A list of lists takes its element type from its first element. */
  function ListOf(es: seq<Value>): Value
    requires es != []
  {
    ListList(es, TypeOf(es[0]))
  }

  predicate HasListOf(es: seq<Value>, t: ExprType) {
    exists i :: 0 <= i < |es| && ListElemType(es[i]) == Some(t)
  }

  predicate TooDeep(e: Value) {
    e.ListList? && e.elemType != NullType
  }

  /** `make_list`; None where the source reports an error or panics. */
  function MakeListValue(h: Host, elements: seq<Value>, hint: ExprType): Option<Value> {
    if exists i :: 0 <= i < |elements| && TooDeep(elements[i]) then None
    else if exists i :: 0 <= i < |elements| && elements[i].UnresolvedValue? then None
    else if elements == [] then Some(TypedEmpty(h, hint))
    else Assemble(h, FillEmpties(h, elements))
  }

  predicate HasInt(es: seq<Value>) {
    exists i :: 0 <= i < |es| && es[i].IntValue?
  }

  predicate HasFloat(es: seq<Value>) {
    exists i :: 0 <= i < |es| && es[i].FloatValue?
  }

  predicate HasPath(es: seq<Value>) {
    exists i :: 0 <= i < |es| && es[i].PathValue?
  }

  predicate HasString(es: seq<Value>) {
    exists i :: 0 <= i < |es| && es[i].StringValue?
  }

  function Texts(h: Host, es: seq<Value>): Value {
    ListString(seq(|es|, i requires 0 <= i < |es| => Display(h, es[i])))
  }

  /** The promotions, in the order the source tries them. */
  function Assemble(h: Host, es: seq<Value>): Option<Value>
    requires es != []
  {
    if HasInt(es) && HasFloat(es) then Floats(Map(es, e => PromoteInt(h, e)))
    else if HasListOf(es, Int) && HasListOf(es, Float) then Some(ListOf(Map(es, e => PromoteInts(h, e))))
    else if HasListOf(es, Path) && HasListOf(es, String) then Some(ListOf(Map(es, e => PromotePaths(e))))
    else if HasPath(es) && HasString(es) then Some(Texts(h, es))
    else Uniform(es)
  }

  function Floats(es: seq<Value>): Option<Value> {
    if forall i :: 0 <= i < |es| ==> es[i].FloatValue? then
      Some(ListFloat(seq(|es|, i requires 0 <= i < |es| => es[i].f)))
    else None
  }

  /** All elements must be of the first one's kind; lists and ranges are kept as they are. */
  function Uniform(es: seq<Value>): Option<Value>
    requires es != []
  {
    match es[0]
    case BoolValue(_) =>
      if forall i :: 0 <= i < |es| ==> es[i].BoolValue? then
        Some(ListBool(seq(|es|, i requires 0 <= i < |es| => es[i].b)))
      else None
    case IntValue(_) =>
      if forall i :: 0 <= i < |es| ==> es[i].IntValue? then
        Some(ListInt(seq(|es|, i requires 0 <= i < |es| => es[i].i)))
      else None
    case FloatValue(_) => Floats(es)
    case StringValue(_) =>
      if forall i :: 0 <= i < |es| ==> es[i].StringValue? then
        Some(ListString(seq(|es|, i requires 0 <= i < |es| => es[i].s)))
      else None
    case PathValue(_, fmt) =>
      if forall i :: 0 <= i < |es| ==> es[i].PathValue? || es[i].StringValue? then
        Some(ListPath(seq(|es|, i requires 0 <= i < |es| => if es[i].PathValue? then es[i].path else es[i].s), fmt))
      else None
    case RangeValue(_) => Some(ListOf(es))
    case _ => if IsList(es[0]) then Some(ListOf(es)) else None
  }
}
