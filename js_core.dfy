/** JavaScript value semantics that the calendar code relies on: optional and
    explicitly-undefined object properties, Date time values that may be NaN,
    and the few String operations it calls (trim, length, toLowerCase,
    includes, String(n), padStart). */
module JsCore {

  datatype Option<+T> = None | Some(value: T)

  /** A computation that either returns a value or throws an error. */
  datatype Result<+T, +E> = Ok(value: T) | Err(error: E)

  /** One property of a JavaScript object literal. A key that is not there
      (Absent) and a key set to `undefined` both read as `undefined`, but only
      the second one overrides an earlier value in an object spread. */
  datatype Field<T> = Absent | Undefined | Val(value: T) {

    /** What reading the property yields (`undefined` becomes None). */
    function Get(): (r: Option<T>)
      ensures r.Some? <==> Val?
      ensures Val? ==> r.value == value
    {
      if Val? then Some(value) else None
    }

    /** The property of `{...this-object, ...newer-object}`. */
    function Over(newer: Field<T>): (r: Field<T>)
      ensures newer.Absent? ==> r == this
      ensures !newer.Absent? ==> r == newer
    {
      if newer.Absent? then this else newer
    }
  }

  /** A property set to a value that may be `undefined`: the key is always
      there. */
  function FromOption<T>(o: Option<T>): (f: Field<T>)
    ensures f.Get() == o && !f.Absent?
  {
    if o.Some? then Val(o.value) else Undefined
  }

  /** `x ?? fallback` on a property. */
  function OrElse<T>(f: Field<T>, fallback: T): (r: T)
    ensures f.Val? ==> r == f.value
    ensures !f.Val? ==> r == fallback
  {
    match f
    case Val(v) => v
    case _ => fallback
  }

  /** The time value of a Date object: a millisecond count or NaN (an
      Invalid Date). */
  datatype Stamp = At(ms: int) | NaN

  /** `new Date(x).getTime()` for a property holding a Date or nothing:
      `new Date(undefined)` is an Invalid Date. */
  function TimeValue(f: Field<Stamp>): (r: Stamp)
    ensures f.Val? ==> r == f.value
    ensures !f.Val? ==> r == NaN
  {
    if f.Val? then f.value else NaN
  }

  /** Numeric `<` and `<=` on time values: every comparison with NaN is false. */
  predicate Lt(a: Stamp, b: Stamp) {
    a.At? && b.At? && a.ms < b.ms
  }

  predicate Le(a: Stamp, b: Stamp) {
    a.At? && b.At? && a.ms <= b.ms
  }

  // ---------------------------------------------------------------------
  // Strings
  // ---------------------------------------------------------------------

  /** The characters String.prototype.trim removes: ECMAScript WhiteSpace
      (tab, vertical tab, form feed, space, no-break space, zero width
      no-break space, and the Unicode space separators) and LineTerminator. */
  predicate IsWhitespace(c: char) {
    c == '\t' || c == '\n' || c == '\r' || c == ' '
    || c == '\U{000B}' || c == '\U{000C}' || c == '\U{00A0}' || c == '\U{FEFF}'
    || c == '\U{1680}' || ('\U{2000}' <= c <= '\U{200A}')
    || c == '\U{2028}' || c == '\U{2029}' || c == '\U{202F}' || c == '\U{205F}' || c == '\U{3000}'
  }

  /** `s` without its leading whitespace. */
  function TrimStart(s: string): string {
    if s != [] && IsWhitespace(s[0]) then TrimStart(s[1..]) else s
  }

  /** `s` without its trailing whitespace. */
  function TrimEnd(s: string): string {
    if s != [] && IsWhitespace(s[|s| - 1]) then TrimEnd(s[..|s| - 1]) else s
  }

  /** TrimStart drops a prefix of whitespace and stops at the first other
      character. */
  lemma {:induction false} TrimStartSpec(s: string)
    ensures var r := TrimStart(s);
      |r| <= |s| && r == s[|s| - |r|..]
      && (r != [] ==> !IsWhitespace(r[0]))
      && forall i :: 0 <= i < |s| - |r| ==> IsWhitespace(s[i])
  {
    if s != [] && IsWhitespace(s[0]) {
      TrimStartSpec(s[1..]);
      var r := TrimStart(s);
      assert r == TrimStart(s[1..]);
      forall i | 0 <= i < |s| - |r| ensures IsWhitespace(s[i]) {
        if i > 0 {
          assert s[i] == s[1..][i - 1];
        }
      }
    }
  }

  /** TrimEnd drops a suffix of whitespace and stops at the last other
      character. */
  lemma {:induction false} TrimEndSpec(s: string)
    ensures var r := TrimEnd(s);
      |r| <= |s| && r == s[..|r|]
      && (r != [] ==> !IsWhitespace(r[|r| - 1]))
      && forall i :: |r| <= i < |s| ==> IsWhitespace(s[i])
  {
    if s != [] && IsWhitespace(s[|s| - 1]) {
      var t := s[..|s| - 1];
      TrimEndSpec(t);
      var r := TrimEnd(s);
      assert r == TrimEnd(t);
      forall i | |r| <= i < |s| ensures IsWhitespace(s[i]) {
        if i < |s| - 1 {
          assert s[i] == t[i];
        }
      }
    }
  }

  /** `r` occurs in `s` starting at index `i`. */
  predicate OccursAt(s: string, r: string, i: int) {
    0 <= i && i + |r| <= |s| && s[i..i + |r|] == r
  }

  /** String.prototype.trim: whitespace removed from both ends. */
  function Trim(s: string): string {
    TrimEnd(TrimStart(s))
  }

  /** The trimmed string is a slice of `s` that neither starts nor ends with
      whitespace, and it is empty exactly when `s` is all whitespace. */
  lemma TrimSpec(s: string)
    ensures exists i :: OccursAt(s, Trim(s), i)
    ensures var r := Trim(s); r != [] ==> !IsWhitespace(r[0]) && !IsWhitespace(r[|r| - 1])
    ensures Trim(s) == [] <==> forall i :: 0 <= i < |s| ==> IsWhitespace(s[i])
  {
    var a := TrimStart(s);
    var r := TrimEnd(a);
    TrimStartSpec(s);
    TrimEndSpec(a);
    var k := |s| - |a|;
    assert s[k..k + |r|] == a[..|r|];
    assert Trim(s) == r;
    assert OccursAt(s, Trim(s), k);
    if a == [] {
      assert r == [];
    } else {
      assert a[0] == s[k] && !IsWhitespace(a[0]);
      assert r != [];
      if r != [] {
        assert r[0] == a[0];
      }
    }
  }

  lemma TrimIdempotent(s: string)
    ensures Trim(Trim(s)) == Trim(s)
  {
    var t := Trim(s);
    TrimSpec(s);
    assert TrimStart(t) == t;
    assert TrimEnd(t) == t;
  }

  /** `s.length`: JavaScript strings count UTF-16 code units, so a character
      outside the Basic Multilingual Plane counts twice. */
  function JsLength(s: string): (n: nat)
    ensures |s| <= n <= 2 * |s|
    ensures (forall i :: 0 <= i < |s| ==> s[i] as int <= 0xFFFF) ==> n == |s|
  {
    if s == [] then 0 else (if s[0] as int > 0xFFFF then 2 else 1) + JsLength(s[1..])
  }

  function ToLowerChar(c: char): (r: char)
    ensures 'A' <= c <= 'Z' ==> 'a' <= r <= 'z' && r as int == c as int + 32
    ensures !('A' <= c <= 'Z') ==> r == c
  {
    if 'A' <= c <= 'Z' then (c as int + 32) as char else c
  }

  /** String.prototype.toLowerCase, for the ASCII letters. */
  function ToLower(s: string): (r: string)
    ensures |r| == |s|
    ensures forall i :: 0 <= i < |s| ==> r[i] == ToLowerChar(s[i])
  {
    if s == [] then [] else [ToLowerChar(s[0])] + ToLower(s[1..])
  }

  /** String.prototype.includes: `q` occurs in `s` at some position. */
  predicate Includes(s: string, q: string)
    decreases |s|
  {
    (|q| <= |s| && s[..|q|] == q) || (s != [] && Includes(s[1..], q))
  }

  lemma IncludesMeansOccurs(s: string, q: string)
    ensures Includes(s, q) <==> exists i :: OccursAt(s, q, i)
  {
    if Includes(s, q) {
      OccursOfIncludes(s, q);
    }
    forall i | OccursAt(s, q, i) ensures Includes(s, q) {
      IncludesOfOccurs(s, q, i);
    }
  }

  /** A string that includes `q` has an occurrence of it. */
  lemma {:induction false} OccursOfIncludes(s: string, q: string)
    requires Includes(s, q)
    ensures exists i :: OccursAt(s, q, i)
    decreases |s|
  {
    if |q| <= |s| && s[..|q|] == q {
      assert OccursAt(s, q, 0);
    } else {
      OccursOfIncludes(s[1..], q);
      var i :| OccursAt(s[1..], q, i);
      assert s[i + 1..i + 1 + |q|] == s[1..][i..i + |q|];
      assert OccursAt(s, q, i + 1);
    }
  }

  /** An occurrence of `q` at `i` makes the string include `q`. */
  lemma {:induction false} IncludesOfOccurs(s: string, q: string, i: int)
    requires OccursAt(s, q, i)
    ensures Includes(s, q)
    decreases i
  {
    if i > 0 {
      assert s[1..][i - 1..i - 1 + |q|] == s[i..i + |q|];
      IncludesOfOccurs(s[1..], q, i - 1);
    }
  }

  // ---------------------------------------------------------------------
  // Numbers as decimal text
  // ---------------------------------------------------------------------

  function DigitChar(d: int): (c: char)
    requires 0 <= d < 10
    ensures '0' <= c <= '9' && c as int - '0' as int == d
  {
    ('0' as int + d) as char
  }

  /** The decimal digits of a natural number, most significant first. */
  function Digits(n: nat): (s: string)
    ensures 1 <= |s|
    ensures forall i :: 0 <= i < |s| ==> '0' <= s[i] <= '9'
    ensures n < 10 ==> |s| == 1
    ensures 10 <= n < 100 ==> |s| == 2
    ensures 100 <= n < 1000 ==> |s| == 3
    ensures 1000 <= n < 10000 ==> |s| == 4
  {
    if n < 10 then [DigitChar(n)] else Digits(n / 10) + [DigitChar(n % 10)]
  }

  /** Every character of `s` is a decimal digit. */
  predicate AllDigits(s: string) {
    forall i :: 0 <= i < |s| ==> '0' <= s[i] <= '9'
  }

  /** The value of a string of decimal digits. */
  function DigitsValue(s: string): int
    requires AllDigits(s)
  {
    if s == [] then 0 else 10 * DigitsValue(s[..|s| - 1]) + (s[|s| - 1] as int - '0' as int)
  }

  lemma {:induction false} DigitsRoundTrip(n: nat)
    ensures DigitsValue(Digits(n)) == n
  {
    if n >= 10 {
      DigitsRoundTrip(n / 10);
      var s := Digits(n);
      assert s[..|s| - 1] == Digits(n / 10);
    }
  }

  /** String(n) for an integer: an optional minus sign, then the digits. */
  function DecimalString(n: int): (s: string)
    ensures n >= 0 ==> s == Digits(n)
    ensures n < 0 ==> s == "-" + Digits(-n)
  {
    if n >= 0 then Digits(n) else "-" + Digits(-n)
  }

  /** `s.padStart(2, '0')`. */
  function PadStart2(s: string): (r: string)
    ensures |s| >= 2 ==> r == s
    ensures |s| < 2 ==> |r| == 2 && r[2 - |s|..] == s && forall i :: 0 <= i < 2 - |s| ==> r[i] == '0'
  {
    if |s| >= 2 then s else if |s| == 1 then "0" + s else "00"
  }
}
