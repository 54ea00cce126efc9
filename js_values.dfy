/** Just enough of JavaScript's values and numbers for the script's
    property lookups, `Number(...)` conversions, truthiness tests and the
    `<`, `>`, `+` and `/ 2` of the legend statistics. */
module JsValues {
  import opened Wrappers

  /** A JavaScript number as the legend computation can meet it. JSON
      cannot encode NaN or the infinities, so they arise only from the
      legend's sentinels and from `Number(undefined)`. */
  datatype JsNumber = Finite(r: real) | PosInf | NegInf | NaN

  /** A property value from a loaded GeoJSON feature: a number or `null`. */
  datatype Value = Num(x: real) | Null

  /** `Number(v)`, where `None` stands for `undefined` (a missing key). */
  function ToNumber(v: Option<Value>): (n: JsNumber)
    ensures n.Finite? <==> v.Some?
    ensures v == Some(Null) ==> n == Finite(0.0)
    ensures !n.PosInf? && !n.NegInf?
    ensures v.Some? && v.value.Num? ==> n == Finite(v.value.x)
  {
    match v
    case None => NaN
    case Some(Null) => Finite(0.0)
    case Some(Num(x)) => Finite(x)
  }

  /** JavaScript truthiness of a looked-up property: `undefined`, `null`
      and `0` are falsy, every other number is truthy. A truthy value is
      exactly one whose `Number(...)` is a finite non-zero number. */
  function Truthy(v: Option<Value>): (b: bool)
    ensures b <==> ToNumber(v).Finite? && ToNumber(v).r != 0.0
  {
    v.Some? && v.value.Num? && v.value.x != 0.0
  }

  function Rank(a: JsNumber): nat {
    match a
    case NegInf => 0
    case Finite(_) => 1
    case PosInf => 2
    case NaN => 3
  }

  /** JavaScript's `a < b`: false whenever either side is NaN, the usual
      order on finite numbers, with `-Infinity` below and `Infinity` above
      every finite number. */
  function Less(a: JsNumber, b: JsNumber): (lt: bool)
    ensures lt ==> !a.NaN? && !b.NaN? && a != b
    ensures lt ==> !a.PosInf? && !b.NegInf?
    ensures a.Finite? && b.Finite? ==> (lt <==> a.r < b.r)
    ensures a.Finite? && b == PosInf ==> lt
    ensures a == NegInf && b.Finite? ==> lt
  {
    !a.NaN? && !b.NaN? &&
    if a.Finite? && b.Finite? then a.r < b.r else Rank(a) < Rank(b)
  }

  /** JavaScript's `a + b`. */
  function Plus(a: JsNumber, b: JsNumber): (c: JsNumber)
    ensures a.Finite? && b.Finite? ==> c == Finite(a.r + b.r)
    ensures (a == PosInf && b == NegInf) || (a == NegInf && b == PosInf) ==> c == NaN
  {
    if a.NaN? || b.NaN? then NaN
    else if a.Finite? && b.Finite? then Finite(a.r + b.r)
    else if a.Finite? then b
    else if b.Finite? then a
    else if a == b then a
    else NaN
  }

  /** JavaScript's `a / 2`: halves a finite number and leaves NaN and the
      infinities as they are. */
  function Half(a: JsNumber): (h: JsNumber)
    ensures h.Finite? <==> a.Finite?
    ensures a.Finite? ==> h.r + h.r == a.r
    ensures !a.Finite? ==> h == a
  {
    if a.Finite? then Finite(a.r / 2.0) else a
  }
}
