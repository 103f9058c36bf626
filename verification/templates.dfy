/**
 * Command template substitution: `command.format(**cleaned_variables)`
 * (app/commands.py:126-138), for the part of Python's format-string language
 * the command catalog uses: literal text, `{{` and `}}` escapes and `{name}`
 * fields. The scanner follows Python's left-to-right parse, so the first
 * problem in the template is the one reported.
 */
module Templates {
  import opened Results

  /** The ValueError messages the formatting path reports (lines 136-138). */
  datatype Fault = SingleClose | SingleOpen | ExpectedClose | OpenInField | TooManyDigits

  function FaultText(f: Fault): string {
    match f
    case SingleClose => "Single '}' encountered in format string"
    case SingleOpen => "Single '{' encountered in format string"
    case ExpectedClose => "expected '}' before end of string"
    case OpenInField => "unexpected '{' in field name"
    case TooManyDigits => "Too many decimal digits in format string"
  }

  datatype FormatError =
    | Missing(name: string)        // KeyError: a field with no variable of that name
    | Malformed(fault: Fault)      // ValueError: the template does not parse
    | Positional(field: string)    // IndexError: `{}` or `{0}` with keyword arguments only
    | Unmodelled(field: string)    // a format spec, conversion, attribute or index access

  /** Characters that end a field name in Python's parser. */
  predicate FieldStop(c: char) {
    c == '{' || c == '}' || c == '[' || c == ':' || c == '!'
  }

  predicate AllDigits(s: string) {
    forall i :: 0 <= i < |s| ==> '0' <= s[i] <= '9'
  }

  /** The number an all-digit field name spells. */
  function Decimal(s: string): nat
    requires AllDigits(s)
  {
    if s == [] then 0 else 10 * Decimal(s[..|s| - 1]) + (s[|s| - 1] as int - '0' as int)
  }

  /** The run of decimal digits a field name starts with. */
  function LeadingDigits(s: string): (d: string)
    ensures AllDigits(d) && d <= s
    ensures d == s || !('0' <= s[|d|] <= '9')
  {
    if s == [] || !('0' <= s[0] <= '9') then [] else [s[0]] + LeadingDigits(s[1..])
  }

  /**
   * The largest field number Python parses (`PY_SSIZE_T_MAX` on a 64-bit
   * build). Python reads the leading digits of every field name as a
   * number, one digit at a time, and raises a ValueError once they pass
   * this bound, even when other characters follow.
   */
  const MAX_INDEX: nat := 0x7fff_ffff_ffff_ffff

  predicate Brace(c: char) {
    c == '{' || c == '}'
  }

  /** The first index at or after `i` holding a field-ending character, or `|t|`. */
  function FieldEnd(t: string, i: nat): (j: nat)
    requires i <= |t|
    ensures i <= j <= |t|
    ensures j < |t| ==> FieldStop(t[j])
    ensures forall k :: i <= k < j ==> !FieldStop(t[k])
    decreases |t| - i
  {
    if i == |t| || FieldStop(t[i]) then i else FieldEnd(t, i + 1)
  }

  /**
   * `t.format(**vars)`. A missing-variable error always names a field that
   * has no variable.
   */
  function Format(t: string, vars: map<string, string>): (r: Result<string, FormatError>)
    ensures r.Failure? && r.error.Missing? ==> r.error.name !in vars
    decreases |t|
  {
    if t == [] then Success([])
    else if t[0] == '{' then
      if |t| == 1 then Failure(Malformed(SingleOpen))
      else if t[1] == '{' then
        var rest :- Format(t[2..], vars);
        Success(['{'] + rest)
      else
        var j := FieldEnd(t, 1);
        if j == |t| then Failure(Malformed(ExpectedClose))
        else if t[j] == '{' then Failure(Malformed(OpenInField))
        else if t[j] != '}' then Failure(Unmodelled(t[1..j]))
        else
          var name := t[1..j];
          if name == [] then Failure(Positional(name))
          else if Decimal(LeadingDigits(name)) > MAX_INDEX then Failure(Malformed(TooManyDigits))
          else if AllDigits(name) then Failure(Positional(name))
          else if '.' in name then Failure(Unmodelled(name))
          else if name !in vars then Failure(Missing(name))
          else
            var rest :- Format(t[j + 1..], vars);
            Success(vars[name] + rest)
    else if t[0] == '}' then
      if |t| > 1 && t[1] == '}' then
        var rest :- Format(t[2..], vars);
        Success(['}'] + rest)
      else Failure(Malformed(SingleClose))
    else
      var rest :- Format(t[1..], vars);
      Success([t[0]] + rest)
  }

  /** A template as the catalog author means it: literal text and named fields. */
  datatype Piece = Text(text: string) | Field(name: string)

  /** A field name that Python looks up among the keyword arguments. */
  predicate KeywordField(n: string) {
    && n != []
    && !AllDigits(n)
    && Decimal(LeadingDigits(n)) <= MAX_INDEX
    && forall i :: 0 <= i < |n| ==> !FieldStop(n[i]) && n[i] != '.'
  }

  /** Literal text with its braces doubled. */
  function Escape(s: string): string {
    if s == [] then []
    else (if Brace(s[0]) then [s[0], s[0]] else [s[0]]) + Escape(s[1..])
  }

  /** The template text of a sequence of pieces. */
  function Render(ps: seq<Piece>): string {
    if ps == [] then []
    else
      (match ps[0]
       case Text(s) => Escape(s)
       case Field(n) => "{" + n + "}") + Render(ps[1..])
  }

  /** The intended command: fields replaced by their values, or the first field that has none. */
  function Expand(ps: seq<Piece>, vars: map<string, string>): Result<string, FormatError> {
    if ps == [] then Success([])
    else match ps[0]
      case Text(s) =>
        var rest :- Expand(ps[1..], vars);
        Success(s + rest)
      case Field(n) =>
        if n !in vars then Failure(Missing(n))
        else
          var rest :- Expand(ps[1..], vars);
          Success(vars[n] + rest)
  }

  /** Rendering goes piece by piece. */
  lemma RenderStep(p: Piece, rest: seq<Piece>)
    ensures p.Text? ==> Render([p] + rest) == Escape(p.text) + Render(rest)
    ensures p.Field? ==> Render([p] + rest) == "{" + p.name + "}" + Render(rest)
  {
    assert ([p] + rest)[1..] == rest;
  }

  /** Expansion goes piece by piece. */
  lemma ExpandStep(p: Piece, rest: seq<Piece>, vars: map<string, string>)
    requires Expand(rest, vars).Success?
    ensures p.Text? ==> Expand([p] + rest, vars) == Success(p.text + Expand(rest, vars).value)
    ensures p.Field? && p.name in vars ==> Expand([p] + rest, vars) == Success(vars[p.name] + Expand(rest, vars).value)
  {
    assert ([p] + rest)[1..] == rest;
  }

  function Prepend(s: string, r: Result<string, FormatError>): Result<string, FormatError> {
    if r.Success? then Success(s + r.value) else r
  }

  lemma PrependTwice(a: string, b: string, r: Result<string, FormatError>)
    ensures Prepend(a, Prepend(b, r)) == Prepend(a + b, r)
    ensures Prepend([], r) == r
  {
    if r.Success? {
      assert a + (b + r.value) == (a + b) + r.value;
      assert [] + r.value == r.value;
    }
  }

  /** A doubled brace stands for one brace. */
  lemma FormatDoubled(t: string, vars: map<string, string>)
    requires |t| >= 2 && Brace(t[0]) && t[1] == t[0]
    ensures Format(t, vars) == Prepend([t[0]], Format(t[2..], vars))
  {
  }

  /** A character other than a brace is copied. */
  lemma FormatPlain(t: string, vars: map<string, string>)
    requires |t| >= 1 && !Brace(t[0])
    ensures Format(t, vars) == Prepend([t[0]], Format(t[1..], vars))
  {
  }

  /** Escaped text starting with a brace starts with that brace doubled. */
  lemma EscapeBrace(s: string, rest: string)
    requires s != [] && Brace(s[0])
    ensures |Escape(s) + rest| >= 2
    ensures (Escape(s) + rest)[0] == s[0] && (Escape(s) + rest)[1] == s[0]
    ensures (Escape(s) + rest)[2..] == Escape(s[1..]) + rest
  {
    var u := Escape(s[1..]) + rest;
    assert Escape(s) + rest == [s[0], s[0]] + u;
  }

  /** Escaped text starting with another character starts with that character once. */
  lemma EscapeOther(s: string, rest: string)
    requires s != [] && !Brace(s[0])
    ensures |Escape(s) + rest| >= 1
    ensures (Escape(s) + rest)[0] == s[0]
    ensures (Escape(s) + rest)[1..] == Escape(s[1..]) + rest
  {
    var u := Escape(s[1..]) + rest;
    assert Escape(s) + rest == [s[0]] + u;
  }

  /** The first character of escaped text is reproduced. */
  lemma FormatEscapedHead(s: string, rest: string, vars: map<string, string>)
    requires s != []
    ensures Format(Escape(s) + rest, vars) == Prepend([s[0]], Format(Escape(s[1..]) + rest, vars))
  {
    if Brace(s[0]) {
      EscapeBrace(s, rest);
      FormatDoubled(Escape(s) + rest, vars);
    } else {
      EscapeOther(s, rest);
      FormatPlain(Escape(s) + rest, vars);
    }
  }

  /** Escaped literal text is reproduced as written. */
  lemma {:induction false} FormatEscaped(s: string, rest: string, vars: map<string, string>)
    ensures Format(Escape(s) + rest, vars) == Prepend(s, Format(rest, vars))
    decreases |s|
  {
    if s == [] {
      assert Escape(s) + rest == rest;
      PrependTwice([], [], Format(rest, vars));
    } else {
      FormatEscapedHead(s, rest, vars);
      FormatEscaped(s[1..], rest, vars);
      PrependTwice([s[0]], s[1..], Format(rest, vars));
      assert [s[0]] + s[1..] == s;
    }
  }

  /** Text without braces is its own escape. */
  lemma {:induction false} EscapeBraceless(s: string)
    requires forall i :: 0 <= i < |s| ==> !Brace(s[i])
    ensures Escape(s) == s
    decreases |s|
  {
    if s != [] {
      EscapeBraceless(s[1..]);
      assert s == [s[0]] + s[1..];
    }
  }

  /** Text without braces is sent unchanged whatever the variables. */
  lemma LiteralTemplate(t: string, vars: map<string, string>)
    requires forall i :: 0 <= i < |t| ==> !Brace(t[i])
    ensures Format(t, vars) == Success(t)
  {
    EscapeBraceless(t);
    FormatEscaped(t, [], vars);
    assert t + [] == t;
  }

  /** A keyword field is replaced by its variable, or reported when the variable is missing. */
  lemma FormatField(n: string, rest: string, vars: map<string, string>)
    requires KeywordField(n)
    ensures n !in vars ==> Format("{" + n + "}" + rest, vars) == Failure(Missing(n))
    ensures n in vars ==> Format("{" + n + "}" + rest, vars) == Prepend(vars[n], Format(rest, vars))
  {
    var t := "{" + n + "}" + rest;
    assert t[0] == '{' && t[1] == n[0] && !FieldStop(t[1]);
    assert forall k :: 1 <= k < 1 + |n| ==> t[k] == n[k - 1];
    assert t[1 + |n|] == '}';
    var j := FieldEnd(t, 1);
    assert j == 1 + |n|;
    assert t[1..j] == n;
    assert t[j + 1..] == rest;
  }

  /**
   * The scanner against the intended meaning: formatting the text of a
   * sequence of pieces gives the expansion of those pieces, so every field is
   * replaced by its value, extra variables play no part, and the first field
   * without a variable is the one reported.
   */
  lemma {:induction false} FormatRendered(ps: seq<Piece>, vars: map<string, string>)
    requires forall i :: 0 <= i < |ps| && ps[i].Field? ==> KeywordField(ps[i].name)
    ensures Format(Render(ps), vars) == Expand(ps, vars)
    decreases |ps|
  {
    if ps != [] {
      FormatRendered(ps[1..], vars);
      match ps[0]
      case Text(s) =>
        FormatEscaped(s, Render(ps[1..]), vars);
      case Field(n) =>
        assert Render(ps) == "{" + n + "}" + Render(ps[1..]);
        FormatField(n, Render(ps[1..]), vars);
    }
  }

  /**
   * The ValueError cases: after well-formed literal text, a lone `}`, a `{`
   * that ends the template, a field that never closes and a field interrupted
   * by another `{` are each reported with Python's message.
   */
  lemma FormatFaults(s: string, tail: string, vars: map<string, string>)
    ensures |tail| >= 1 && tail[0] == '}' && (|tail| == 1 || tail[1] != '}') ==>
              Format(Escape(s) + tail, vars) == Failure(Malformed(SingleClose))
    ensures tail == "{" ==> Format(Escape(s) + tail, vars) == Failure(Malformed(SingleOpen))
    ensures |tail| >= 2 && tail[0] == '{' && tail[1] != '{' && (forall k :: 1 <= k < |tail| ==> !FieldStop(tail[k])) ==>
              Format(Escape(s) + tail, vars) == Failure(Malformed(ExpectedClose))
    ensures |tail| >= 3 && tail[0] == '{' && !FieldStop(tail[1]) && tail[2] == '{' ==>
              Format(Escape(s) + tail, vars) == Failure(Malformed(OpenInField))
  {
    FormatEscaped(s, tail, vars);
    if |tail| >= 2 && tail[0] == '{' && tail[1] != '{' && (forall k :: 1 <= k < |tail| ==> !FieldStop(tail[k])) {
      assert FieldEnd(tail, 1) == |tail|;
    }
    if |tail| >= 3 && tail[0] == '{' && !FieldStop(tail[1]) && tail[2] == '{' {
      assert FieldEnd(tail, 2) == 2;
      assert FieldEnd(tail, 1) == 2;
    }
  }

  /**
   * A field whose name starts with digits, after well-formed text. Python
   * raises a ValueError when the leading digits pass `MAX_INDEX`, whatever
   * follows them; otherwise an all-digit name is a positional index, which a
   * call with keyword arguments only cannot supply.
   */
  lemma FormatNumbered(s: string, n: string, rest: string, vars: map<string, string>)
    requires n != [] && forall i :: 0 <= i < |n| ==> !FieldStop(n[i])
    ensures Decimal(LeadingDigits(n)) > MAX_INDEX ==>
              Format(Escape(s) + ("{" + n + "}" + rest), vars) == Failure(Malformed(TooManyDigits))
    ensures AllDigits(n) && Decimal(n) <= MAX_INDEX ==>
              Format(Escape(s) + ("{" + n + "}" + rest), vars) == Failure(Positional(n))
  {
    FormatEscaped(s, "{" + n + "}" + rest, vars);
    NumberedField(n, rest, vars);
  }

  /** `FormatNumbered` for a template that starts with the field. */
  lemma NumberedField(n: string, rest: string, vars: map<string, string>)
    requires n != [] && forall i :: 0 <= i < |n| ==> !FieldStop(n[i])
    ensures Decimal(LeadingDigits(n)) > MAX_INDEX ==>
              Format("{" + n + "}" + rest, vars) == Failure(Malformed(TooManyDigits))
    ensures AllDigits(n) && Decimal(n) <= MAX_INDEX ==>
              Format("{" + n + "}" + rest, vars) == Failure(Positional(n))
  {
    FieldParts(n, rest);
    if AllDigits(n) {
      assert LeadingDigits(n) == n;
    }
  }

  /** How the scanner splits a template that starts with a field of `n`. */
  lemma FieldParts(n: string, rest: string)
    requires n != [] && forall i :: 0 <= i < |n| ==> !FieldStop(n[i])
    ensures var t := "{" + n + "}" + rest;
      && |t| > 1 + |n| && t[0] == '{' && t[1] != '{'
      && FieldEnd(t, 1) == 1 + |n| && t[1 + |n|] == '}' && t[1..1 + |n|] == n
  {
    var t := "{" + n + "}" + rest;
    assert t[0] == '{' && t[1] == n[0] && !FieldStop(t[1]);
    assert forall k :: 1 <= k < 1 + |n| ==> t[k] == n[k - 1];
    assert t[1 + |n|] == '}';
    assert FieldEnd(t, 1) == 1 + |n|;
    assert t[1..1 + |n|] == n;
  }

  /** `k` nines. */
  function Nines(k: nat): (s: string)
    ensures |s| == k && AllDigits(s)
  {
    seq(k, _ => '9')
  }

  /** `k` nines spell a number of `k` digits, the largest such. */
  lemma {:induction false} NinesDecimal(k: nat)
    ensures Decimal(Nines(k)) + 1 == Pow10(k)
  {
    if k > 0 {
      assert Nines(k)[..k - 1] == Nines(k - 1);
      NinesDecimal(k - 1);
    }
  }

  /** Ten to the power `k`. */
  function Pow10(k: nat): (p: nat)
    ensures p >= 1
  {
    if k == 0 then 1 else 10 * Pow10(k - 1)
  }

  /** Powers of ten multiply by adding exponents. */
  lemma {:induction false} Pow10Add(a: nat, b: nat)
    ensures Pow10(a + b) == Pow10(a) * Pow10(b)
    decreases b
  {
    if b > 0 {
      Pow10Add(a, b - 1);
      assert Pow10(a + b) == 10 * Pow10(a + b - 1);
    }
  }

  /** Twenty nines spell a number above `MAX_INDEX`. */
  lemma Pow10Twenty()
    ensures Pow10(20) == 100_000_000_000_000_000_000
  {
    assert Pow10(5) == 100_000;
    Pow10Add(5, 5);
    Pow10Add(10, 10);
  }

  /**
   * A field of twenty nines and a letter, `{99999999999999999999x}`, is
   * refused with Python's ValueError even when a variable of that name is
   * sent: the nines pass `MAX_INDEX` before the parser reaches the letter.
   */
  lemma OverflowingName(x: char, v: string)
    requires !('0' <= x <= '9') && !FieldStop(x)
    ensures var n := Nines(20) + [x];
      Format("{" + n + "}", map[n := v]) == Failure(Malformed(TooManyDigits))
  {
    var n := Nines(20) + [x];
    assert LeadingDigits(n) == Nines(20) by {
      assert forall k :: 0 <= k < 20 ==> n[k] == '9';
      assert n[20] == x;
    }
    NinesDecimal(20);
    Pow10Twenty();
    assert Decimal(LeadingDigits(n)) > MAX_INDEX;
    NumberedField(n, [], map[n := v]);
    assert "{" + n + "}" + [] == "{" + n + "}";
  }

  /** Variables the pieces never name do not change the expansion. */
  lemma {:induction false} ExpandIgnoresOthers(ps: seq<Piece>, v1: map<string, string>, v2: map<string, string>)
    requires forall i :: 0 <= i < |ps| && ps[i].Field? ==> (ps[i].name in v1 <==> ps[i].name in v2)
    requires forall i :: 0 <= i < |ps| && ps[i].Field? && ps[i].name in v1 ==> v1[ps[i].name] == v2[ps[i].name]
    ensures Expand(ps, v1) == Expand(ps, v2)
    decreases |ps|
  {
    if ps != [] {
      ExpandIgnoresOthers(ps[1..], v1, v2);
    }
  }
}
