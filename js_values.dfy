/** The JavaScript value conversions the engine relies on: how a `key` prop
    becomes a property name of a plain object, which keys are falsy, and
    `forceArray` (src/recycle.js). */
module JsValues {
  import opened Wrappers

  /** The value of a component's `key` prop, as far as the engine looks at it.
      `Undefined` is a props object without a `key` property. Only integral
      numbers are modelled. */
  datatype Key = Null | Undefined | Str(s: string) | Num(n: int)

  /** A props object, reduced to its `key` property. */
  datatype Props = Props(key: Key)

  /** `createComponent`: `const key = (props) ? props.key : null`. */
  function ComponentKey(props: Option<Props>): Key
  {
    match props
    case None => Null
    case Some(p) => p.key
  }

  /** `jsxHandler`: `const childProps = arguments['1'] || {}`, so missing props
      give a props object without a key. */
  function ChildProps(props: Option<Props>): Props
  {
    match props
    case None => Props(Undefined)
    case Some(p) => p
  }

  /** Falsy keys: `!child.getKey()` holds for these. */
  predicate Falsy(k: Key)
  {
    match k
    case Null => true
    case Undefined => true
    case Str(s) => s == ""
    case Num(n) => n == 0
  }

  function Digit(d: nat): char
    requires d < 10
  {
    ('0' as int + d) as char
  }

  /** Decimal spelling of a natural number, most significant digit first. */
  function Decimal(n: nat): (r: string)
    ensures |r| >= 1
    ensures forall i :: 0 <= i < |r| ==> '0' <= r[i] <= '9'
    ensures n >= 10 <==> |r| >= 2
    decreases n
  {
    if n < 10 then [Digit(n)] else Decimal(n / 10) + [Digit(n % 10)]
  }

  /** The property name a key is coerced to when it indexes a plain object,
      which is also its text inside a template literal. */
  function PropertyName(k: Key): string
  {
    match k
    case Null => "null"
    case Undefined => "undefined"
    case Str(s) => s
    case Num(n) => if n < 0 then "-" + Decimal(-n) else Decimal(n)
  }

  /** Two keys land in the same slot when their property names agree; a
      keyless child (Undefined) never meets a child whose key is null. */
  lemma KeylessSlots()
    ensures PropertyName(Undefined) != PropertyName(Null)
    ensures PropertyName(Num(7)) == PropertyName(Str("7"))
    ensures PropertyName(Num(-12)) == "-12"
  {
  }

  lemma DigitInjective(d: nat, e: nat)
    requires d < 10 && e < 10
    ensures Digit(d) == Digit(e) ==> d == e
  {
  }

  /** Different numbers are spelled differently: the last digits agree only
      when the numbers agree modulo 10, and the rest spells n / 10. */
  lemma {:induction false} DecimalInjective(n: nat, m: nat)
    ensures Decimal(n) == Decimal(m) ==> n == m
    decreases n
  {
    var a, b := Decimal(n), Decimal(m);
    if a == b {
      if n < 10 && m < 10 {
        DigitInjective(n, m);
      } else if n >= 10 && m >= 10 {
        assert a[|a| - 1] == Digit(n % 10) && b[|b| - 1] == Digit(m % 10);
        DigitInjective(n % 10, m % 10);
        assert a[..|a| - 1] == Decimal(n / 10);
        assert b[..|b| - 1] == Decimal(m / 10);
        DecimalInjective(n / 10, m / 10);
      }
    }
  }

  /** A number key's name is a minus sign exactly for a negative number,
      followed by decimal digits. */
  lemma NumberSpelling(n: int)
    ensures var pn := PropertyName(Num(n));
      && |pn| >= 1 && (pn[0] == '-' <==> n < 0)
      && forall i :: (if n < 0 then 1 else 0) <= i < |pn| ==> '0' <= pn[i] <= '9'
  {
    var pn := PropertyName(Num(n));
    if n < 0 {
      var dn := Decimal(-n);
      assert forall i :: 1 <= i < |pn| ==> pn[i] == dn[i - 1];
    }
  }

  /** The first character of a number key's name. */
  lemma NumberHead(n: int)
    ensures var pn := PropertyName(Num(n));
      |pn| >= 1 && (pn[0] == '-' <==> n < 0) && (pn[0] == '-' || '0' <= pn[0] <= '9')
  {
    NumberSpelling(n);
  }

  /** The name of a negative number is a minus sign before its magnitude. */
  lemma NegativeName(n: int)
    requires n < 0
    ensures PropertyName(Num(n)) == "-" + Decimal(-n)
  {
  }

  lemma NegativeNamesInjective(n: int, m: int)
    requires n < 0 && m < 0
    ensures PropertyName(Num(n)) == PropertyName(Num(m)) ==> n == m
  {
    if PropertyName(Num(n)) == PropertyName(Num(m)) {
      NegativeName(n);
      NegativeName(m);
      PrefixCancel(PropertyName(Num(n)), PropertyName(Num(m)), "-", Decimal(-n), Decimal(-m));
      DecimalInjective(-n, -m);
    }
  }

  /** Equal strings with the same prefix have equal rests. */
  lemma PrefixCancel(s: string, t: string, c: string, x: string, y: string)
    requires s == c + x && t == c + y
    ensures s == t ==> x == y
  {
    if s == t {
      assert x == s[|c|..];
      assert y == t[|c|..];
    }
  }

  /** Different numbers get different names: the sign decides the first
      character, and the digits after it spell the magnitude. */
  lemma NumberNamesInjective(n: int, m: int)
    ensures PropertyName(Num(n)) == PropertyName(Num(m)) ==> n == m
  {
    if n < 0 && m < 0 {
      NegativeNamesInjective(n, m);
    } else if n >= 0 && m >= 0 {
      DecimalInjective(n, m);
    } else {
      NumberHead(n);
      NumberHead(m);
    }
  }

  /** Number keys: two of them share a slot exactly when they are equal, and
      none shares one with a null key or a keyless child. */
  lemma NumberSlots(n: int, m: int)
    ensures PropertyName(Num(n)) == PropertyName(Num(m)) <==> n == m
    ensures PropertyName(Num(n)) != PropertyName(Null)
    ensures PropertyName(Num(n)) != PropertyName(Undefined)
  {
    NumberNamesInjective(n, m);
    NumberHead(n);
    var pn := PropertyName(Num(n));
    assert pn[0] != "null"[0] && pn[0] != "undefined"[0];
  }

  /** `forceArray`: a value that is not an array is wrapped in one. */
  datatype OneOrMany<T> = One(x: T) | Many(xs: seq<T>)

  function ForceArray<T>(v: OneOrMany<T>): (r: seq<T>)
    ensures v.One? ==> |r| == 1 && r[0] == v.x
    ensures v.Many? ==> r == v.xs
  {
    match v
    case One(x) => [x]
    case Many(xs) => xs
  }

  /** Normalising twice is normalising once. */
  lemma ForceArrayIdempotent<T>(v: OneOrMany<T>)
    ensures ForceArray(Many(ForceArray(v))) == ForceArray(v)
  {
  }
}
