/**
  How a Mongoose schema turns the JavaScript value stored into a path of type
  String or Boolean into the value the document holds: casting, the `trim`
  setter and the `required` validator for strings. A cast that fails is a
  validation or cast error, which the handlers turn into status 500.
*/
module SchemaTypes {
  import opened Wrappers
  import opened JsValue

  predicate IsDigit(c: char) {
    '0' <= c <= '9'
  }

  function DigitChar(d: nat): (c: char)
    requires d < 10
    ensures IsDigit(c)
  {
    ['0', '1', '2', '3', '4', '5', '6', '7', '8', '9'][d]
  }

  function DigitValue(c: char): nat
    requires IsDigit(c)
  {
    (c as int - '0' as int) as nat
  }

  /** The decimal numeral of a natural number, as `String(n)` writes it. */
  function NatToString(n: nat): (r: string)
    ensures |r| >= 1
    ensures forall i | 0 <= i < |r| :: IsDigit(r[i])
  {
    if n < 10 then [DigitChar(n)] else NatToString(n / 10) + [DigitChar(n % 10)]
  }

  /** The number a string of decimal digits denotes. */
  function DigitsValue(s: string): nat
    requires forall i | 0 <= i < |s| :: IsDigit(s[i])
  {
    if s == [] then 0 else 10 * DigitsValue(s[..|s| - 1]) + DigitValue(s[|s| - 1])
  }

  /** Reading back the numeral of `n` gives `n`. */
  lemma {:induction false} NatToStringRoundTrip(n: nat)
    ensures DigitsValue(NatToString(n)) == n
  {
    if n >= 10 {
      NatToStringRoundTrip(n / 10);
      var s := NatToString(n);
      assert s[..|s| - 1] == NatToString(n / 10);
    }
  }

  /** `String(n)` for an integer. */
  function IntToString(n: int): (r: string)
    ensures |r| >= 1 && IsTrimmed(r) && !AllWhitespace(r)
  {
    if n < 0 then "-" + NatToString(-n) else NatToString(n)
  }

  /**
    Casting to a String path: strings are kept, numbers and booleans are
    written out, and anything else (undefined, null, arrays, plain objects)
    fails the cast or the required check.
  */
  function CastString(v: Value): (r: Option<string>)
    ensures r.Some? <==> v.Str? || v.Num? || v.Bool?
    ensures v.Str? ==> r == Some(v.s)
    ensures r.Some? && !v.Str? ==> r.value != [] && IsTrimmed(r.value)
  {
    match v
    case Str(s) => Some(s)
    case Num(n) => Some(IntToString(n))
    case Bool(b) => Some(if b then "true" else "false")
    case _ => None
  }

  /**
    Casting a non-null value to a Boolean path: `true`, `"true"`, `1`, `"1"`
    and `"yes"` give true; `false`, `"false"`, `0`, `"0"` and `"no"` give
    false; any other value fails the cast. Mongoose lets null and undefined
    through without casting; the callers handle both before they cast.
  */
  function CastBoolean(v: Value): (r: Option<bool>)
    ensures r == Some(true) <==> v in {Bool(true), Str("true"), Num(1), Str("1"), Str("yes")}
    ensures r == Some(false) <==> v in {Bool(false), Str("false"), Num(0), Str("0"), Str("no")}
  {
    match v
    case Bool(b) => Some(b)
    case Num(n) => if n == 1 then Some(true) else if n == 0 then Some(false) else None
    case Str(s) =>
      if s == "true" || s == "1" || s == "yes" then Some(true)
      else if s == "false" || s == "0" || s == "no" then Some(false)
      else None
    case _ => None
  }

  /**
    Where the Boolean cast succeeds it agrees with JavaScript truthiness,
    except on the three non-empty strings that cast to false.
  */
  lemma CastBooleanAgreesWithTruthy(v: Value)
    requires CastBoolean(v).Some?
    requires v !in {Str("false"), Str("0"), Str("no")}
    ensures CastBoolean(v).value == Truthy(v)
  {
  }

  /** A String path with the `trim` setter: cast, then trim. */
  function CastTrimmed(v: Value): (r: Option<string>)
    ensures r.Some? <==> CastString(v).Some?
    ensures r.Some? ==> r.value == Trim(CastString(v).value) && IsTrimmed(r.value)
    ensures v.Str? ==> r == Some(Trim(v.s))
  {
    match CastString(v)
    case None => None
    case Some(s) => TrimIsTrimmed(s); Some(Trim(s))
  }

  /**
    A required, trimmed String path: the trimmed cast must be non-empty
    (Mongoose's required check on strings rejects "").
  */
  function CastRequiredTrimmed(v: Value): (r: Option<string>)
    ensures r.Some? ==> r.value != [] && IsTrimmed(r.value)
    ensures r.Some? <==> CastString(v).Some? && Trim(CastString(v).value) != []
    ensures r.Some? ==> r.value == Trim(CastString(v).value)
  {
    match CastTrimmed(v)
    case Some(s) => if s == [] then None else Some(s)
    case None => None
  }

  /** One element of a String array path, trimmed when the element type has the `trim` setter. */
  function CastElement(v: Value, trim: bool): (r: Option<string>)
    ensures r.Some? <==> CastString(v).Some?
  {
    match CastString(v)
    case None => None
    case Some(s) => Some(if trim then Trim(s) else s)
  }

  /** An array of strings: every element is cast; one failing element fails the whole array. */
  function CastStrings(vs: seq<Value>, trim: bool): (r: Option<seq<string>>)
    ensures r.Some? <==> forall i | 0 <= i < |vs| :: CastString(vs[i]).Some?
    ensures r.Some? ==> |r.value| == |vs|
    ensures r.Some? ==> forall i | 0 <= i < |vs| :: Some(r.value[i]) == CastElement(vs[i], trim)
  {
    if vs == [] then Some([])
    else
      var head := CastElement(vs[0], trim);
      var tail := CastStrings(vs[1..], trim);
      AllCastCons(vs);
      if head.None? || tail.None? then
        None
      else
        CastCons(vs, trim, head.value, tail.value);
        Some([head.value] + tail.value)
  }

  /** Every element of a non-empty array casts exactly when its head and every element of its tail do. */
  lemma AllCastCons(vs: seq<Value>)
    requires |vs| >= 1
    ensures (forall i | 0 <= i < |vs| :: CastString(vs[i]).Some?) <==>
      CastString(vs[0]).Some? && forall i | 0 <= i < |vs[1..]| :: CastString(vs[1..][i]).Some?
  {
    if CastString(vs[0]).Some? && forall i | 0 <= i < |vs[1..]| :: CastString(vs[1..][i]).Some? {
      forall i | 1 <= i < |vs| ensures CastString(vs[i]).Some? {
        assert vs[i] == vs[1..][i - 1];
      }
    }
  }

  /** The cast head in front of the cast tail is the cast array. */
  lemma CastCons(vs: seq<Value>, trim: bool, x: string, xs: seq<string>)
    requires |vs| >= 1 && Some(x) == CastElement(vs[0], trim)
    requires |xs| == |vs[1..]| && forall i | 0 <= i < |xs| :: Some(xs[i]) == CastElement(vs[1..][i], trim)
    ensures forall i | 0 <= i < |vs| :: Some(([x] + xs)[i]) == CastElement(vs[i], trim)
  {
    var r := [x] + xs;
    assert r[0] == x;
    forall i | 1 <= i < |vs| ensures Some(r[i]) == CastElement(vs[i], trim) {
      assert r[i] == xs[i - 1];
      assert vs[i] == vs[1..][i - 1];
    }
  }
}
