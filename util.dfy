/** `src/utils/util.ts`: the address order that breaks ties between
    concurrent peer writes, and the emptiness test used on received payloads. */
module Util {
  import opened Wrappers
  import opened JsSemantics

  /** `parseInt(parts[i])`; a part past the end is `undefined`, which parses
      to NaN. */
  function Part(parts: seq<string>, i: nat): Option<int>
  {
    if i < |parts| then ParseInt(parts[i]) else None
  }

  /** The four numbers `maxIP` compares: `parseInt` of each of the first four
      dot-separated parts of the address. */
  function ParsedParts(address: string): (v: seq<Option<int>>)
    ensures |v| == 4
    ensures forall i :: 0 <= i < 4 ==> v[i] == Part(Split(address, '.'), i)
  {
    var parts := Split(address, '.');
    [Part(parts, 0), Part(parts, 1), Part(parts, 2), Part(parts, 3)]
  }

  /** JavaScript's `>` on two parsed parts: false whenever either is NaN. */
  predicate Gt(x: Option<int>, y: Option<int>)
  {
    x.Some? && y.Some? && x.value > y.value
  }

  /** Part `i` decides the comparison: one side is strictly greater. */
  predicate Decides(x: seq<Option<int>>, y: seq<Option<int>>, i: nat)
  {
    i < |x| && i < |y| && (Gt(x[i], y[i]) || Gt(y[i], x[i]))
  }

  /** The loop of `maxIP` from part `i` on, over the parsed parts `x` of `a`
      and `y` of `b`. */
  function MaxIPFrom(a: string, b: string, x: seq<Option<int>>, y: seq<Option<int>>, i: nat): (r: string)
    requires |x| == 4 && |y| == 4 && i <= 4
    ensures r == a || r == b
    decreases 4 - i
  {
    if i == 4 then a
    else if Gt(x[i], y[i]) then a
    else if Gt(y[i], x[i]) then b
    else MaxIPFrom(a, b, x, y, i + 1)
  }

  /** `maxIP(a, b)`: compares the first four dot-separated parts as numbers,
      left to right; the first part that differs decides, and `a` is
      returned when none does. The result is always one of the two. */
  function MaxIP(a: string, b: string): (r: string)
    ensures r == a || r == b
  {
    MaxIPFrom(a, b, ParsedParts(a), ParsedParts(b), 0)
  }

  /** `b` wins: some part among the first four decides in its favour and no
      earlier part decides. */
  predicate SecondWins(x: seq<Option<int>>, y: seq<Option<int>>)
    requires |x| == 4 && |y| == 4
  {
    exists i :: 0 <= i < 4 && Gt(y[i], x[i]) && forall j :: 0 <= j < i ==> !Decides(x, y, j)
  }

  /** No part among the first four decides. */
  predicate Tied(x: seq<Option<int>>, y: seq<Option<int>>)
  {
    forall i :: 0 <= i < 4 ==> !Decides(x, y, i)
  }

  lemma {:induction false} MaxIPFromIsFirstDifference(a: string, b: string, x: seq<Option<int>>, y: seq<Option<int>>, i: nat)
    requires |x| == 4 && |y| == 4 && i <= 4
    requires forall j :: 0 <= j < i ==> !Decides(x, y, j)
    ensures MaxIPFrom(a, b, x, y, i) == if SecondWins(x, y) then b else a
    decreases 4 - i
  {
    if i == 4 {
      NoSecondWinner(x, y);
    } else if Gt(x[i], y[i]) {
      forall k | 0 <= k < 4 ensures !(Gt(y[k], x[k]) && forall j :: 0 <= j < k ==> !Decides(x, y, j)) {
        if k < i {
          assert !Decides(x, y, k);
        } else if k > i {
          assert Decides(x, y, i);
        }
      }
    } else if Gt(y[i], x[i]) {
      assert SecondWins(x, y);
    } else {
      MaxIPFromIsFirstDifference(a, b, x, y, i + 1);
    }
  }

  /** When no part decides, `b` does not win. */
  lemma NoSecondWinner(x: seq<Option<int>>, y: seq<Option<int>>)
    requires |x| == 4 && |y| == 4 && Tied(x, y)
    ensures !SecondWins(x, y)
  {
    forall k | 0 <= k < 4 ensures !Gt(y[k], x[k]) {
      assert !Decides(x, y, k);
    }
  }

  /** `maxIP(a, b)` is `b` exactly when the first deciding part favours `b`;
      otherwise it is `a`. */
  lemma MaxIPIsFirstDifference(a: string, b: string)
    ensures MaxIP(a, b) == if SecondWins(ParsedParts(a), ParsedParts(b)) then b else a
  {
    MaxIPFromIsFirstDifference(a, b, ParsedParts(a), ParsedParts(b), 0);
  }

  /** When no part decides, the first argument wins: called as
      `maxIP(sender, ADDRESS)`, that is the sender. */
  lemma MaxIPTieGoesToFirst(a: string, b: string)
    requires Tied(ParsedParts(a), ParsedParts(b))
    ensures MaxIP(a, b) == a
  {
    MaxIPIsFirstDifference(a, b);
    NoSecondWinner(ParsedParts(a), ParsedParts(b));
  }

  lemma {:induction false} MaxIPFromSwap(a: string, b: string, x: seq<Option<int>>, y: seq<Option<int>>, i: nat, k: nat)
    requires |x| == 4 && |y| == 4 && i <= k < 4 && Decides(x, y, k)
    ensures MaxIPFrom(a, b, x, y, i) == MaxIPFrom(b, a, y, x, i)
    decreases 4 - i
  {
    if !Gt(x[i], y[i]) && !Gt(y[i], x[i]) {
      assert i != k;
      MaxIPFromSwap(a, b, x, y, i + 1, k);
    }
  }

  /** When some part decides, both argument orders pick the same address. */
  lemma MaxIPAntisymmetric(a: string, b: string)
    requires !Tied(ParsedParts(a), ParsedParts(b))
    ensures MaxIP(a, b) == MaxIP(b, a)
  {
    var k :| 0 <= k < 4 && Decides(ParsedParts(a), ParsedParts(b), k);
    MaxIPFromSwap(a, b, ParsedParts(a), ParsedParts(b), 0, k);
  }

  /** A port after the fourth part does not take part in the comparison:
      `parseInt("2:8080")` is 2. */
  lemma PortSuffixIgnored(digits: string, port: string)
    requires digits != [] && forall i :: 0 <= i < |digits| ==> IsDecimalDigit(digits[i])
    ensures ParseInt(digits + ":" + port) == Some(DigitsValue(digits, 10))
  {
    assert digits + ":" + port == digits + (":" + port);
    ParseIntStopsAtNonDigit(digits, ":" + port);
  }

  /** The parts compare as numbers, not as text: "10" beats "9". */
  lemma TenBeatsNine()
    ensures Gt(ParseInt("10"), ParseInt("9"))
  {
    ParseIntOfDigits("10");
    ParseIntOfDigits("9");
    TwoDigitsValue('1', '0');
    assert ['1', '0'] == "10";
  }

  /** A digit string alone parses to its value. */
  lemma ParseIntOfDigits(d: string)
    requires d != [] && forall i :: 0 <= i < |d| ==> IsDecimalDigit(d[i])
    ensures ParseInt(d) == Some(DigitsValue(d, 10))
  {
    ParseIntStopsAtNonDigit(d, []);
    assert d + [] == d;
  }

  /** The value of a two-digit string. */
  lemma TwoDigitsValue(c0: char, c1: char)
    ensures DigitsValue([c0, c1], 10) == DigitValue(c0) * 10 + DigitValue(c1)
  {
    assert [c0, c1][..1] == [c0];
    assert [c0][..0] == [];
    assert DigitsValue([c0], 10) == DigitValue(c0);
  }

  /** A missing or non-numeric part (NaN) never decides. */
  lemma NaNNeverDecides(x: seq<Option<int>>, y: seq<Option<int>>, i: nat)
    requires i < |x| && i < |y| && (x[i].None? || y[i].None?)
    ensures !Decides(x, y, i)
  {
  }

  /** The JavaScript values `isEmpty` is applied to. Numbers are integers
      here; floating point is not modelled. */
  datatype JsValue =
    | JsNull
    | JsUndefined
    | JsBool(b: bool)
    | JsNumber(n: int)
    | JsString(s: string)
    | JsArray(items: seq<JsValue>)
    | JsObject(fields: map<string, JsValue>)

  /** The `typeof` operator. */
  function TypeOf(v: JsValue): string
  {
    match v
    case JsNull => "object"
    case JsUndefined => "undefined"
    case JsBool(_) => "boolean"
    case JsNumber(_) => "number"
    case JsString(_) => "string"
    case JsArray(_) => "object"
    case JsObject(_) => "object"
  }

  /** `Object.keys(v).length` for an object or array. */
  function OwnKeyCount(v: JsValue): nat
  {
    match v
    case JsArray(items) => |items|
    case JsObject(fields) => |fields|
    case _ => 0
  }

  /** `isEmpty`: the chain of tests as written. Only `null`, `undefined`, the
      empty string, and an array or object with no own keys are empty; no
      number is, 0 included. */
  function IsEmpty(v: JsValue): (r: bool)
    ensures r <==> v == JsNull || v == JsUndefined || v == JsString("")
                   || v == JsArray([]) || v == JsObject(map[])
  {
    if v == JsNull then true
    else if TypeOf(v) != "number" && v == JsString("") then true
    else if TypeOf(v) == "undefined" || v == JsUndefined then true
    else if v != JsNull && TypeOf(v) == "object" && OwnKeyCount(v) == 0 then true
    else false
  }
}
