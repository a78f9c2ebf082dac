/** The JavaScript values that flow through the state store and the rules:
    scalars, strings and plain objects, with the truthiness, string
    conversion and loose equality the components rely on. */
module Values {

  datatype Option<T> = None | Some(value: T)

  /** A JavaScript value as far as the store uses it. Numbers are modelled
      as integers. */
  datatype Value =
    | Undefined
    | Null
    | Bool(b: bool)
    | Num(n: int)
    | Str(s: string)
    | Obj(fields: map<string, Value>)

  /** JavaScript truthiness: undefined, null, false, 0 and "" are falsy. */
  predicate Truthy(v: Value)
  {
    match v
    case Undefined => false
    case Null => false
    case Bool(b) => b
    case Num(n) => n != 0
    case Str(s) => s != ""
    case Obj(_) => true
  }

  /** `a || b` on values: the left operand when it is truthy, else the right. */
  function Or(a: Value, b: Value): (r: Value)
    ensures Truthy(a) ==> r == a
    ensures !Truthy(a) ==> r == b
    ensures Truthy(r) <==> Truthy(a) || Truthy(b)
  {
    if Truthy(a) then a else b
  }

  /** `a || b` on strings, where only "" is falsy. */
  function OrString(a: string, b: string): (r: string)
    ensures a != "" ==> r == a
    ensures a == "" ==> r == b
  {
    if a != "" then a else b
  }

  function DigitChar(d: nat): (c: char)
    requires d < 10
    ensures '0' <= c <= '9'
  {
    ('0' as int + d) as char
  }

  function DigitValue(c: char): (d: nat)
    requires IsDigit(c)
    ensures d < 10 && DigitChar(d) == c
  {
    (c as int - '0' as int) as nat
  }

  predicate IsDigit(c: char) { '0' <= c <= '9' }

  /** Decimal digits of a natural number, most significant first. */
  function NatToString(n: nat): (s: string)
    ensures |s| > 0
    ensures forall i :: 0 <= i < |s| ==> IsDigit(s[i])
    decreases n
  {
    if n < 10 then [DigitChar(n)] else NatToString(n / 10) + [DigitChar(n % 10)]
  }

  /** Value of a non-empty string of decimal digits. */
  function DigitsValue(s: string): (n: nat)
    requires forall i :: 0 <= i < |s| ==> IsDigit(s[i])
    decreases |s|
  {
    if s == [] then 0 else DigitsValue(s[..|s| - 1]) * 10 + DigitValue(s[|s| - 1])
  }

  lemma {:induction false} DigitsOfNat(n: nat)
    ensures DigitsValue(NatToString(n)) == n
    decreases n
  {
    if n >= 10 {
      var s := NatToString(n / 10) + [DigitChar(n % 10)];
      assert s[..|s| - 1] == NatToString(n / 10);
      assert DigitValue(s[|s| - 1]) == n % 10;
      DigitsOfNat(n / 10);
      assert DigitsValue(s) == (n / 10) * 10 + n % 10;
    }
  }

  /** `String(n)` for an integer. */
  function IntToString(n: int): (s: string)
    ensures |s| > 0
  {
    if n < 0 then "-" + NatToString(-n) else NatToString(n)
  }

  /** `String(v)`: the conversion a template literal or `String.replace`
      callback applies to a value. */
  function ToString(v: Value): string
  {
    match v
    case Undefined => "undefined"
    case Null => "null"
    case Bool(b) => if b then "true" else "false"
    case Num(n) => IntToString(n)
    case Str(s) => s
    case Obj(_) => "[object Object]"
  }

  /** `String(v)` is empty only for the empty string. */
  lemma ToStringEmptyIff(v: Value)
    ensures ToString(v) == "" <==> v == Str("")
  {
    if v.Num? {
      assert |IntToString(v.n)| > 0;
    }
  }

  /** `\s` in a JavaScript regular expression. */
  predicate IsSpace(c: char)
  {
    c == ' ' || c == '\t' || c == '\n' || c == '\r' || c == '\U{000B}' || c == '\U{000C}'
    || c == '\U{00A0}' || c == '\U{1680}' || ('\U{2000}' <= c <= '\U{200A}')
    || c == '\U{2028}' || c == '\U{2029}' || c == '\U{202F}' || c == '\U{205F}'
    || c == '\U{3000}' || c == '\U{FEFF}'
  }

  /** `s.trim()`, the white space `Number` ignores around its literal:
      leading and trailing `\s` characters are dropped. */
  function TrimSpace(s: string): (t: string)
    ensures t == [] <==> forall k :: 0 <= k < |s| ==> IsSpace(s[k])
    ensures t != [] ==> !IsSpace(t[0]) && !IsSpace(t[|t| - 1])
    decreases |s|
  {
    if s != [] && IsSpace(s[0]) then TrimSpace(s[1..])
    else if s != [] && IsSpace(s[|s| - 1]) then TrimSpace(s[..|s| - 1])
    else s
  }

  /** White space around a string is trimmed away, and nothing else. */
  lemma {:induction false} TrimSpacePadded(before: string, t: string, after: string)
    requires forall k :: 0 <= k < |before| ==> IsSpace(before[k])
    requires forall k :: 0 <= k < |after| ==> IsSpace(after[k])
    requires t != [] && !IsSpace(t[0]) && !IsSpace(t[|t| - 1])
    ensures TrimSpace(before + t + after) == t
    decreases |before| + |after|
  {
    var s := before + t + after;
    if before != [] {
      assert s[0] == before[0] && s[1..] == before[1..] + t + after;
      TrimSpacePadded(before[1..], t, after);
    } else if after != [] {
      assert s == t + after && s[0] == t[0];
      assert s[|s| - 1] == after[|after| - 1];
      assert s[..|s| - 1] == [] + t + after[..|after| - 1];
      TrimSpacePadded([], t, after[..|after| - 1]);
    } else {
      assert s == t;
    }
  }

  /** `Number(s)` restricted to the integer forms this model needs: white
      space around the literal is ignored, nothing but white space is 0, an
      optional `+` or `-` sign followed by decimal digits is that integer,
      and anything else is NaN (None). */
  function ToNumber(s: string): (r: Option<int>)
    ensures (forall k :: 0 <= k < |s| ==> IsSpace(s[k])) ==> r == Some(0)
  {
    ReadInteger(TrimSpace(s))
  }

  /** Decimal digits only. */
  predicate AllDigits(t: string)
  {
    forall i :: 0 <= i < |t| ==> IsDigit(t[i])
  }

  /** The integer a trimmed literal denotes: the empty literal is 0, an
      optional sign followed by decimal digits is that integer. */
  function ReadInteger(t: string): Option<int>
  {
    if t == "" then Some(0)
    else if |t| > 1 && (t[0] == '-' || t[0] == '+') && AllDigits(t[1..]) then
      var d: int := DigitsValue(t[1..]); Some(if t[0] == '-' then -d else d)
    else if AllDigits(t) then Some(DigitsValue(t))
    else None
  }

  /** The white space around a number's literal does not change it. */
  lemma PaddedNumber(before: string, t: string, after: string)
    requires forall k :: 0 <= k < |before| ==> IsSpace(before[k])
    requires forall k :: 0 <= k < |after| ==> IsSpace(after[k])
    requires t != [] && !IsSpace(t[0]) && !IsSpace(t[|t| - 1])
    ensures ToNumber(before + t + after) == ToNumber(t)
  {
    TrimSpacePadded(before, t, after);
    TrimSpacePadded([], t, []);
    assert [] + t + [] == t;
  }

  /** A literal without white space around it is read as it is. */
  lemma ToNumberOfTrimmed(s: string)
    requires s != [] && !IsSpace(s[0]) && !IsSpace(s[|s| - 1])
    ensures ToNumber(s) == ReadInteger(s)
  {
    assert TrimSpace(s) == s;
  }

  /** A `+` sign gives the same number as no sign. */
  lemma PlusSignedNumber(t: string)
    requires |t| > 0 && forall i :: 0 <= i < |t| ==> IsDigit(t[i])
    ensures ToNumber("+" + t) == ToNumber(t) == Some(DigitsValue(t) as int)
  {
    var s := "+" + t;
    assert s[1..] == t && s[|s| - 1] == t[|t| - 1];
    ToNumberOfTrimmed(s);
    assert ReadInteger(s) == Some(DigitsValue(t) as int);
    NonNegativeNumber(t);
  }

  lemma NonNegativeNumber(t: string)
    requires |t| > 0 && forall i :: 0 <= i < |t| ==> IsDigit(t[i])
    ensures ToNumber(t) == Some(DigitsValue(t) as int)
  {
    assert IsDigit(t[0]) && IsDigit(t[|t| - 1]);
    ToNumberOfTrimmed(t);
    assert AllDigits(t);
  }

  lemma NegativeNumber(t: string)
    requires |t| > 0 && forall i :: 0 <= i < |t| ==> IsDigit(t[i])
    ensures ToNumber("-" + t) == Some(-(DigitsValue(t) as int))
  {
    var s := "-" + t;
    assert s[|s| - 1] == t[|t| - 1];
    ToNumberOfTrimmed(s);
    ReadNegative(t);
  }

  lemma ReadNegative(t: string)
    requires |t| > 0 && AllDigits(t)
    ensures ReadInteger("-" + t) == Some(-(DigitsValue(t) as int))
  {
    var s := "-" + t;
    assert s[1..] == t;
  }

  lemma ToNumberOfIntToString(n: int)
    ensures ToNumber(IntToString(n)) == Some(n)
  {
    if n < 0 {
      NegativeNumber(NatToString(-n));
      DigitsOfNat(-n);
    } else {
      NonNegativeNumber(NatToString(n));
      DigitsOfNat(n);
    }
  }

  /** `v == s` with JavaScript's loose equality, where `s` is a string. */
  predicate LooseEqualsString(v: Value, s: string)
    ensures (forall k :: 0 <= k < |s| ==> IsSpace(s[k])) && v.Num? ==> (LooseEqualsString(v, s) <==> v.n == 0)
  {
    match v
    case Undefined => false
    case Null => false
    case Bool(b) => ToNumber(s) == Some(if b then 1 else 0)
    case Num(n) => ToNumber(s) == Some(n)
    case Str(t) => t == s
    case Obj(_) => s == "[object Object]"
  }

  /** Loose equality agrees with conversion to string on strings and numbers. */
  lemma LooseEqualsToString(v: Value)
    requires v.Str? || v.Num?
    ensures LooseEqualsString(v, ToString(v))
  {
    if v.Num? {
      ToNumberOfIntToString(v.n);
    }
  }

  /** A number loosely equals its own string with white space around it, as
      `1 == " 1 "` does in JavaScript. */
  lemma LooseEqualsPaddedNumber(n: int, before: string, after: string)
    requires forall k :: 0 <= k < |before| ==> IsSpace(before[k])
    requires forall k :: 0 <= k < |after| ==> IsSpace(after[k])
    ensures LooseEqualsString(Num(n), before + IntToString(n) + after)
  {
    var t := IntToString(n);
    assert !IsSpace(t[0]) && !IsSpace(t[|t| - 1]);
    PaddedNumber(before, t, after);
    ToNumberOfIntToString(n);
  }
}
