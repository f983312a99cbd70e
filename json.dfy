/**
 * Parsed JSON values and the JavaScript operations the price decoders apply to them:
 * property reads, `??` chains, truthiness, `typeof x === 'object'`, `Object.entries`,
 * `Number(x)` and `x.toString()`.
 *
 * An object is held as its own properties in `Object.entries` order; its keys are
 * expected to be distinct, as `JSON.parse` makes them.
 */
module Json {
  import opened Wrappers
  import opened Text

  datatype Json =
    | JNull
    | JBool(b: bool)
    | JNum(n: real)
    | JStr(s: string)
    | JArr(items: seq<Json>)
    | JObj(fields: seq<(string, Json)>)

  /** The first field of `fs` named `key`. */
  function Lookup(fs: seq<(string, Json)>, key: string): (r: Option<Json>)
    ensures r.Some? ==> exists i :: 0 <= i < |fs| && fs[i] == (key, r.value)
    ensures r.None? ==> forall i :: 0 <= i < |fs| ==> fs[i].0 != key
    decreases |fs|
  {
    if |fs| == 0 then None
    else if fs[0].0 == key then Some(fs[0].1)
    else Lookup(fs[1..], key)
  }

  /** The property read `j.key`, `None` standing for `undefined`. Of the values JSON can hold only
      objects carry the properties the decoders read (none of them is a property of a string,
      a number, a boolean or an array). */
  function Get(j: Json, key: string): Option<Json> {
    if j.JObj? then Lookup(j.fields, key) else None
  }

  /** Reads from a two-field object. */
  lemma GetOfPair(a: string, x: Json, b: string, y: Json)
    requires a != b
    ensures Get(JObj([(a, x), (b, y)]), a) == Some(x)
    ensures Get(JObj([(a, x), (b, y)]), b) == Some(y)
  {
    var fs := [(a, x), (b, y)];
    assert fs[1..] == [(b, y)];
    assert Lookup(fs[1..], b) == Some(y);
    assert Lookup(fs, b) == Lookup(fs[1..], b);
  }

  /** What `??` treats as absent: `undefined` and `null`. */
  predicate Nullish(o: Option<Json>) {
    o.None? || o.value.JNull?
  }

  /** `j[keys[0]] ?? j[keys[1]] ?? ...`: the first of the named properties that is present and
      not `null`, or `None` when every one of them is absent or `null`. */
  function FirstPresent(j: Json, keys: seq<string>): (r: Option<Json>)
    ensures r.Some? ==> r.value != JNull
    decreases |keys|
  {
    if |keys| == 0 then None
    else if !Nullish(Get(j, keys[0])) then Get(j, keys[0])
    else FirstPresent(j, keys[1..])
  }

  /** The read `FirstPresent` returns is the first one that is not nullish, and it returns
      nothing exactly when every read is nullish. */
  lemma {:induction false} FirstPresentSpec(j: Json, keys: seq<string>)
    ensures FirstPresent(j, keys).Some? ==>
      exists i :: 0 <= i < |keys| && Get(j, keys[i]) == FirstPresent(j, keys)
        && forall i' :: 0 <= i' < i ==> Nullish(Get(j, keys[i']))
    ensures FirstPresent(j, keys).None? <==> forall i :: 0 <= i < |keys| ==> Nullish(Get(j, keys[i]))
    decreases |keys|
  {
    if |keys| > 0 && Nullish(Get(j, keys[0])) {
      FirstPresentSpec(j, keys[1..]);
      assert forall i :: 1 <= i < |keys| ==> keys[i] == keys[1..][i - 1];
      if FirstPresent(j, keys).Some? {
        var i :| 0 <= i < |keys[1..]| && Get(j, keys[1..][i]) == FirstPresent(j, keys)
          && forall i' :: 0 <= i' < i ==> Nullish(Get(j, keys[1..][i']));
        assert Get(j, keys[i + 1]) == FirstPresent(j, keys);
      }
    }
  }

  /** JavaScript truthiness. Reals have no NaN, so a number is falsy exactly when it is zero. */
  predicate Truthy(j: Json) {
    match j
    case JNull => false
    case JBool(b) => b
    case JNum(n) => n != 0.0
    case JStr(s) => |s| > 0
    case JArr(_) => true
    case JObj(_) => true
  }

  /** Truthiness of a property read, `undefined` being falsy. */
  predicate TruthyRead(o: Option<Json>) {
    o.Some? && Truthy(o.value)
  }

  /** `typeof j === 'object'`: objects, arrays and `null`. */
  predicate IsObject(j: Json) {
    j.JObj? || j.JArr? || j.JNull?
  }

  /** `Object.entries(j)`: an object's fields; an array's or a string's positions keyed by their
      decimal index; nothing for numbers, booleans and `null`. */
  function Entries(j: Json): (es: seq<(string, Json)>)
    ensures j.JObj? ==> es == j.fields
    ensures j.JArr? ==> |es| == |j.items| && forall i :: 0 <= i < |es| ==> es[i] == (DecimalText(i), j.items[i])
    ensures j.JStr? ==> |es| == |j.s| && forall i :: 0 <= i < |es| ==> es[i] == (DecimalText(i), JStr([j.s[i]]))
    ensures !(j.JObj? || j.JArr? || j.JStr?) ==> es == []
  {
    match j
    case JObj(fs) => fs
    case JArr(xs) => seq(|xs|, i requires 0 <= i < |xs| => (DecimalText(i), xs[i]))
    case JStr(s) => seq(|s|, i requires 0 <= i < |s| => (DecimalText(i), JStr([s[i]])))
    case _ => []
  }

  /** The text of an index determines the index. */
  lemma DecimalTextInjective(a: nat, b: nat)
    ensures DecimalText(a) == DecimalText(b) ==> a == b
  {
    DecimalTextValue(a);
    DecimalTextValue(b);
  }

  /** The keys `Object.entries` gives an array or a string are strings of decimal digits, no two
      alike, and each reads back as the position it names: so a loop storing under these keys
      never overwrites one position with another. */
  lemma EntriesKeysDistinct(j: Json)
    ensures j.JArr? || j.JStr? ==>
      forall a, b :: 0 <= a < b < |Entries(j)| ==> Entries(j)[a].0 != Entries(j)[b].0
    ensures j.JArr? || j.JStr? ==>
      forall a :: 0 <= a < |Entries(j)| ==>
        AllDigits(Entries(j)[a].0) && ParseNumeric(Entries(j)[a].0) == Some(a as real)
  {
    if j.JArr? || j.JStr? {
      var es := Entries(j);
      forall a, b | 0 <= a < b < |es| ensures es[a].0 != es[b].0 {
        DecimalTextInjective(a, b);
      }
      forall a | 0 <= a < |es| ensures AllDigits(es[a].0) && ParseNumeric(es[a].0) == Some(a as real) {
        DecimalTextValue(a);
        ParseDecimalText(a);
      }
    }
  }

  /** `Object.entries(o ?? {})`. */
  function EntriesOr(o: Option<Json>): (es: seq<(string, Json)>)
    ensures Nullish(o) ==> es == []
  {
    if Nullish(o) then [] else Entries(o.value)
  }

  predicate IsDigit(c: char) {
    '0' <= c <= '9'
  }

  predicate AllDigits(s: string) {
    forall k :: 0 <= k < |s| ==> IsDigit(s[k])
  }

  /** The number of leading decimal digits of `s`. */
  function DigitRun(s: string): (n: nat)
    ensures n <= |s| && AllDigits(s[..n])
    ensures n < |s| ==> !IsDigit(s[n])
    decreases |s|
  {
    if |s| > 0 && IsDigit(s[0]) then
      var n := 1 + DigitRun(s[1..]);
      assert s[..n] == [s[0]] + s[1..][..n - 1];
      n
    else 0
  }

  /** The value of a string of decimal digits, most significant first. */
  function DigitsValue(s: string): nat
    requires AllDigits(s)
    decreases |s|
  {
    if |s| == 0 then 0 else 10 * DigitsValue(s[..|s| - 1]) + (s[|s| - 1] as int - '0' as int)
  }

  function Pow10(n: nat): (p: nat)
    ensures p >= 1
  {
    if n == 0 then 1 else 10 * Pow10(n - 1)
  }

  /** An unsigned decimal literal: digits with at most one point and at least one digit. */
  function ParseUnsigned(t: string): (r: Option<real>)
    ensures r.Some? ==> r.value >= 0.0
  {
    var a := DigitRun(t);
    if a == |t| then
      if a > 0 then Some(DigitsValue(t) as real) else None
    else if t[a] == '.' && AllDigits(t[a + 1..]) && (a > 0 || a + 1 < |t|) then
      var f := t[a + 1..];
      Some(DigitsValue(t[..a]) as real + DigitsValue(f) as real / Pow10(|f|) as real)
    else None
  }

  /** `Number(s)` for a string, `None` standing for NaN: surrounding white space is ignored, an
      empty string is zero, and a decimal literal with an optional sign is read exactly. */
  function ParseNumeric(s: string): (r: Option<real>)
    ensures r.Some? && r.value < 0.0 ==> |Trim(s)| > 0 && Trim(s)[0] == '-'
  {
    var t := Trim(s);
    if |t| == 0 then Some(0.0)
    else if t[0] == '-' then
      match ParseUnsigned(t[1..])
      case Some(v) => Some(-v)
      case None => None
    else if t[0] == '+' then ParseUnsigned(t[1..])
    else ParseUnsigned(t)
  }

  /** `Number(j)`, `None` standing for NaN. An array is read through its text: no elements give
      `""` (zero), one element gives that element's text, more give a comma and so NaN. */
  function ToNumber(j: Json): Option<real> {
    match j
    case JNull => Some(0.0)
    case JBool(b) => Some(if b then 1.0 else 0.0)
    case JNum(n) => Some(n)
    case JStr(s) => ParseNumeric(s)
    case JObj(_) => None
    case JArr(xs) =>
      if |xs| == 0 then Some(0.0)
      else if |xs| > 1 || xs[0].JBool? then None
      else ToNumber(xs[0])
  }

  /** The text of a natural number reads back as that number. */
  lemma {:induction false} DecimalTextValue(n: nat)
    ensures AllDigits(DecimalText(n)) && DigitsValue(DecimalText(n)) == n
    decreases n
  {
    var t := DecimalText(n);
    if n >= 10 {
      DecimalTextValue(n / 10);
      assert t[..|t| - 1] == DecimalText(n / 10);
    }
  }

  /** `Number(String(n))` is `n` for every natural number `n`. */
  lemma ParseDecimalText(n: nat)
    ensures ParseNumeric(DecimalText(n)) == Some(n as real)
  {
    DecimalTextValue(n);
    ParseDigits(DecimalText(n));
  }

  /** A non-empty string of decimal digits reads as its value. */
  lemma ParseDigits(t: string)
    requires |t| > 0 && AllDigits(t)
    ensures ParseNumeric(t) == Some(DigitsValue(t) as real)
  {
    assert IsDigit(t[0]) && IsDigit(t[|t| - 1]);
    TrimOfTrimmed(t);
    var a := DigitRun(t);
    assert a == |t|;
  }

  /** A minus sign in front of a literal negates what it reads as: `Number('-' + t)` is
      `-Number(t)` and both are NaN together. */
  lemma ParseNumericNegate(t: string)
    requires |t| > 0 && IsDigit(t[0]) && !IsSpace(t[|t| - 1])
    ensures ParseNumeric("-" + t).Some? <==> ParseNumeric(t).Some?
    ensures ParseNumeric(t).Some? ==> ParseNumeric("-" + t).value == -ParseNumeric(t).value
  {
    var m := "-" + t;
    assert m[|m| - 1] == t[|t| - 1];
    TrimOfTrimmed(t);
    TrimOfTrimmed(m);
    assert m[1..] == t;
  }

  /** `Number` reads a number as itself, and the decimal text of a natural number, bare or as the
      only element of an array, as that number. */
  lemma ToNumberReads(x: real, n: nat)
    ensures ToNumber(JNum(x)) == Some(x)
    ensures ToNumber(JStr(DecimalText(n))) == Some(n as real)
    ensures ToNumber(JArr([JStr(DecimalText(n))])) == Some(n as real)
    ensures ToNumber(JArr([JNum(x)])) == Some(x)
  {
    ParseDecimalText(n);
  }

  function Join(parts: seq<string>, sep: string): string
    decreases |parts|
  {
    if |parts| == 0 then ""
    else if |parts| == 1 then parts[0]
    else Join(parts[..|parts| - 1], sep) + sep + parts[|parts| - 1]
  }

  /** `String(j)`, `j.toString()` for a value that is not `null`. The text of a number is the
      JavaScript engine's and is taken as the parameter `numText`. An array joins the text of its
      elements with commas, `null` elements giving the empty string. */
  function ToText(j: Json, numText: real -> string): string {
    match j
    case JNull => "null"
    case JBool(b) => if b then "true" else "false"
    case JNum(n) => numText(n)
    case JStr(s) => s
    case JObj(_) => "[object Object]"
    case JArr(xs) =>
      Join(seq(|xs|, i requires 0 <= i < |xs| => if xs[i].JNull? then "" else ToText(xs[i], numText)), ",")
  }

  /** The text of a one-element array is the text of its element, and an empty array's text is
      empty: `['Wheat'].toString()` is `'Wheat'`. */
  lemma ToTextOfArray(x: Json, numText: real -> string)
    requires !x.JNull?
    ensures ToText(JArr([x]), numText) == ToText(x, numText)
    ensures ToText(JArr([]), numText) == ""
  {
    var parts := seq(1, i requires 0 <= i < 1 => if [x][i].JNull? then "" else ToText([x][i], numText));
    assert parts == [ToText(x, numText)];
  }
}
