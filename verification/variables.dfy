/**
 * Request variables: the normalisation of `variables[...]`-wrapped keys
 * (app/commands.py:110-116) and `validate_variables` (app/commands.py:81-89).
 */
module Variables {
  import opened Results

  /** The wrapper that HTML form fields put around a variable name. */
  const PREFIX: string := "variables["

  /** The variables of one request as (key, value) pairs, in the order of the request's dict. */
  type Pairs = seq<(string, string)>

  /** A dict has each key once. */
  predicate DistinctKeys(vars: Pairs) {
    forall i, j :: 0 <= i < j < |vars| ==> vars[i].0 != vars[j].0
  }

  /** `s.replace(pat, '')`: occurrences are found left to right without overlap and removed. */
  function RemoveAll(s: string, pat: string): (r: string)
    requires pat != []
    ensures |r| <= |s|
    ensures forall x :: x in r ==> x in s
    decreases |s|
  {
    if s == [] then []
    else if pat <= s then RemoveAll(s[|pat|..], pat)
    else [s[0]] + RemoveAll(s[1..], pat)
  }

  /** Removing a one-character pattern deletes exactly that character and keeps the rest in order. */
  lemma {:induction false} RemoveCharacter(s: string, c: char)
    ensures forall x :: x in RemoveAll(s, [c]) <==> x in s && x != c
    ensures c !in s ==> RemoveAll(s, [c]) == s
    decreases |s|
  {
    if s != [] {
      RemoveCharacter(s[1..], c);
      if [c] <= s {
        assert s[0] == c;
        assert s == [s[0]] + s[1..];
      } else {
        assert s == [s[0]] + s[1..];
      }
    }
  }

  /** A pattern with a character the text lacks is never found, so nothing is removed. */
  lemma {:induction false} RemoveAbsent(s: string, pat: string, c: char)
    requires pat != [] && c in pat && c !in s
    ensures RemoveAll(s, pat) == s
    decreases |s|
  {
    var k :| 0 <= k < |pat| && pat[k] == c;
    if s != [] {
      assert !(pat <= s) by {
        assert k < |s| ==> s[k] != pat[k];
      }
      RemoveAbsent(s[1..], pat, c);
      assert s == [s[0]] + s[1..];
    }
  }

  /** Removing a pattern from text that starts with it drops that occurrence first. */
  lemma RemoveLeading(pat: string, rest: string)
    requires pat != []
    ensures RemoveAll(pat + rest, pat) == RemoveAll(rest, pat)
  {
    assert pat <= pat + rest;
    assert (pat + rest)[|pat|..] == rest;
  }

  /** A key in the form encoding (`k.startswith('variables[')`). */
  predicate IsWrapped(k: string) {
    PREFIX <= k
  }

  /** Line 114: `k.replace('variables[', '').replace(']', '')`. */
  function Strip(k: string): (n: string)
    ensures ']' !in n
    ensures forall x :: x in n ==> x in k
  {
    RemoveCharacter(RemoveAll(k, PREFIX), ']');
    RemoveAll(RemoveAll(k, PREFIX), "]")
  }

  /** The characters of `s` other than `c`, in order. */
  function Without(s: string, c: char): string {
    if s == [] then [] else (if s[0] == c then [] else [s[0]]) + Without(s[1..], c)
  }

  /** Removing a one-character pattern is filtering that character out. */
  lemma {:induction false} RemoveIsWithout(s: string, c: char)
    ensures RemoveAll(s, [c]) == Without(s, c)
    decreases |s|
  {
    if s != [] {
      RemoveIsWithout(s[1..], c);
      assert [c] <= s <==> s[0] == c;
    }
  }

  /** Filtering goes part by part. */
  lemma {:induction false} WithoutAppend(a: string, b: string, c: char)
    ensures Without(a + b, c) == Without(a, c) + Without(b, c)
    decreases |a|
  {
    if a != [] {
      WithoutAppend(a[1..], b, c);
      assert (a + b)[1..] == a[1..] + b;
    } else {
      assert a + b == b;
    }
  }

  /** Filtering out an absent character changes nothing. */
  lemma {:induction false} WithoutAbsent(s: string, c: char)
    requires c !in s
    ensures Without(s, c) == s
    decreases |s|
  {
    if s != [] {
      WithoutAbsent(s[1..], c);
      assert s == [s[0]] + s[1..];
    }
  }

  /**
   * A form key whose name holds no `[`: the prefix goes, and so does every
   * `]`, wherever it stands; the other characters stay in order.
   */
  lemma StripKey(s: string)
    requires '[' !in s
    ensures Strip(PREFIX + s) == Without(s, ']')
  {
    RemoveLeading(PREFIX, s);
    assert '[' in PREFIX by { assert PREFIX[9] == '['; }
    RemoveAbsent(s, PREFIX, '[');
    RemoveIsWithout(s, ']');
  }

  /**
   * Keys that differ only in their `]` collide: `variables[ip]]` strips to
   * the same name as `variables[ip]`.
   */
  lemma StripCollision(n: string)
    requires PlainName(n)
    ensures Strip(Wrap(n) + "]") == n && Strip(Wrap(n)) == n
  {
    assert Wrap(n) + "]" == PREFIX + (n + "]]");
    StripKey(n + "]]");
    WithoutAppend(n, "]]", ']');
    WithoutAbsent(n, ']');
    assert Without("]]", ']') == [];
    StripWrap(n);
  }

  /** A name the form encoding carries unchanged. */
  predicate PlainName(n: string) {
    '[' !in n && ']' !in n
  }

  /** How the HTML form sends a variable (app/routes.py:49 keeps such keys). */
  function Wrap(n: string): string {
    PREFIX + n + "]"
  }

  /** Stripping undoes the form encoding of a plain name. */
  lemma {:induction false} StripWrap(n: string)
    requires PlainName(n)
    ensures Strip(Wrap(n)) == n
  {
    assert Wrap(n) == PREFIX + (n + "]");
    RemoveLeading(PREFIX, n + "]");
    assert '[' in PREFIX by { assert PREFIX[9] == '['; }
    RemoveAbsent(n + "]", PREFIX, '[');
    RemoveCharacter(n, ']');
    RemoveSuffixCharacter(n, ']');
  }

  /** Removing a character that occurs only at the end removes just that end. */
  lemma {:induction false} RemoveSuffixCharacter(s: string, c: char)
    requires c !in s
    ensures RemoveAll(s + [c], [c]) == s
    decreases |s|
  {
    if s == [] {
      var one: string := [c];
      assert one <= one;
      assert one[1..] == [];
    } else {
      assert (s + [c])[0] == s[0] != c;
      assert !([c] <= s + [c]);
      assert (s + [c])[1..] == s[1..] + [c];
      RemoveSuffixCharacter(s[1..], c);
      assert s == [s[0]] + s[1..];
    }
  }

  /** Some key uses the form encoding (line 113). */
  predicate AnyWrapped(vars: Pairs) {
    exists i :: 0 <= i < |vars| && IsWrapped(vars[i].0)
  }

  /** Pair `i` is wrapped and strips to `n`. */
  predicate NamesAt(vars: Pairs, i: int, n: string) {
    0 <= i < |vars| && IsWrapped(vars[i].0) && Strip(vars[i].0) == n
  }

  /** Pair `i` is the last wrapped pair whose key strips to the same name. */
  predicate LastWrappedFor(vars: Pairs, i: int) {
    && 0 <= i < |vars|
    && IsWrapped(vars[i].0)
    && forall j :: i < j < |vars| ==> !NamesAt(vars, j, Strip(vars[i].0))
  }

  /**
   * The dict comprehension at line 114: wrapped keys only, stripped; when two
   * keys strip to the same name the later pair's value is the one kept.
   */
  function Unwrap(vars: Pairs): (m: map<string, string>)
  {
    if vars == [] then map[]
    else
      var last := vars[|vars| - 1];
      var rest := Unwrap(vars[..|vars| - 1]);
      if IsWrapped(last.0) then rest[Strip(last.0) := last.1] else rest
  }

  /** The names the comprehension produces are those of the wrapped keys. */
  lemma {:induction false} UnwrapKeys(vars: Pairs)
    ensures forall n :: n in Unwrap(vars) <==> exists i :: NamesAt(vars, i, n)
    decreases |vars|
  {
    if vars != [] {
      var init := vars[..|vars| - 1];
      var last := vars[|vars| - 1];
      UnwrapKeys(init);
      forall n
        ensures n in Unwrap(vars) <==> exists i :: NamesAt(vars, i, n)
      {
        if n in Unwrap(vars) && n !in Unwrap(init) {
          assert NamesAt(vars, |vars| - 1, n);
        }
        if n in Unwrap(init) {
          var i :| NamesAt(init, i, n);
          assert init[i] == vars[i];
          assert NamesAt(vars, i, n);
        }
        if exists i :: NamesAt(vars, i, n) {
          var i :| NamesAt(vars, i, n);
          if i < |init| {
            assert init[i] == vars[i];
            assert NamesAt(init, i, n);
          } else {
            assert i == |vars| - 1;
          }
        }
      }
    }
  }

  /** Each name takes the value of the last wrapped pair that strips to it. */
  lemma {:induction false} UnwrapValues(vars: Pairs)
    ensures forall i :: LastWrappedFor(vars, i) ==> Strip(vars[i].0) in Unwrap(vars) && Unwrap(vars)[Strip(vars[i].0)] == vars[i].1
    decreases |vars|
  {
    if vars != [] {
      var init := vars[..|vars| - 1];
      var last := vars[|vars| - 1];
      UnwrapValues(init);
      forall i | LastWrappedFor(vars, i)
        ensures Strip(vars[i].0) in Unwrap(vars) && Unwrap(vars)[Strip(vars[i].0)] == vars[i].1
      {
        if i < |init| {
          assert init[i] == vars[i];
          assert !NamesAt(vars, |vars| - 1, Strip(vars[i].0));
          forall j | i < j < |init|
            ensures !NamesAt(init, j, Strip(init[i].0))
          {
            assert init[j] == vars[j];
            assert !NamesAt(vars, j, Strip(vars[i].0));
          }
          assert LastWrappedFor(init, i);
        }
      }
    }
  }

  /** The request dict itself (line 116). */
  function AsMap(vars: Pairs): (m: map<string, string>)
    requires DistinctKeys(vars)
    ensures forall k :: k in m <==> exists i :: 0 <= i < |vars| && vars[i].0 == k
    ensures forall i :: 0 <= i < |vars| ==> vars[i].0 in m && m[vars[i].0] == vars[i].1
  {
    map i | 0 <= i < |vars| :: vars[i].0 := vars[i].1
  }

  /**
   * Lines 110-116: if any key is wrapped, only wrapped keys survive, stripped;
   * otherwise the variables are used as sent. Either way the result is empty
   * exactly when no variables were sent, so the test at line 128 agrees with
   * the one at line 110.
   */
  function Normalise(vars: Pairs): (cleaned: map<string, string>)
    requires DistinctKeys(vars)
    ensures AnyWrapped(vars) ==> forall n :: n in cleaned <==> exists i :: NamesAt(vars, i, n)
    ensures AnyWrapped(vars) ==> forall i :: LastWrappedFor(vars, i) ==> Strip(vars[i].0) in cleaned && cleaned[Strip(vars[i].0)] == vars[i].1
    ensures !AnyWrapped(vars) ==> forall i :: 0 <= i < |vars| ==> vars[i].0 in cleaned && cleaned[vars[i].0] == vars[i].1
    ensures !AnyWrapped(vars) ==> forall k :: k in cleaned ==> exists i :: 0 <= i < |vars| && vars[i].0 == k
    ensures cleaned == map[] <==> vars == []
  {
    if AnyWrapped(vars) then
      var i :| 0 <= i < |vars| && IsWrapped(vars[i].0);
      UnwrapKeys(vars);
      UnwrapValues(vars);
      assert NamesAt(vars, i, Strip(vars[i].0));
      Unwrap(vars)
    else
      if vars != [] then assert vars[0].0 in AsMap(vars); AsMap(vars)
      else AsMap(vars)
  }

  /** Every pair's key in the form encoding. */
  function WrapAll(vars: Pairs): (w: Pairs)
    ensures |w| == |vars|
    ensures forall i :: 0 <= i < |vars| ==> w[i] == (Wrap(vars[i].0), vars[i].1)
  {
    seq(|vars|, i requires 0 <= i < |vars| => (Wrap(vars[i].0), vars[i].1))
  }

  /** Wrapped plain names strip back to themselves and are never wrapped before wrapping. */
  lemma WrapAllFacts(vars: Pairs)
    requires forall i :: 0 <= i < |vars| ==> PlainName(vars[i].0)
    ensures forall i :: 0 <= i < |vars| ==> IsWrapped(WrapAll(vars)[i].0) && Strip(WrapAll(vars)[i].0) == vars[i].0
    ensures !AnyWrapped(vars)
  {
    var w := WrapAll(vars);
    forall i | 0 <= i < |vars|
      ensures IsWrapped(w[i].0) && Strip(w[i].0) == vars[i].0
    {
      StripWrap(vars[i].0);
      assert w[i].0 == PREFIX + (vars[i].0 + "]");
    }
    forall i | 0 <= i < |vars|
      ensures !IsWrapped(vars[i].0)
    {
      assert PREFIX[9] == '[';
      assert |vars[i].0| > 9 ==> vars[i].0[9] != '[';
    }
  }

  /** Wrapping keeps distinct plain names distinct. */
  lemma WrapAllDistinct(vars: Pairs)
    requires DistinctKeys(vars)
    requires forall i :: 0 <= i < |vars| ==> PlainName(vars[i].0)
    ensures DistinctKeys(WrapAll(vars))
    ensures forall i :: 0 <= i < |vars| ==> LastWrappedFor(WrapAll(vars), i)
  {
    WrapAllFacts(vars);
  }

  /** The form encoding of plain names unwraps to names the API encoding also has. */
  lemma UnwrappedNamesAreSent(vars: Pairs, k: string)
    requires forall i :: 0 <= i < |vars| ==> PlainName(vars[i].0)
    requires k in Unwrap(WrapAll(vars))
    ensures exists i :: 0 <= i < |vars| && vars[i].0 == k
  {
    UnwrapKeys(WrapAll(vars));
    WrapAllFacts(vars);
    var i :| NamesAt(WrapAll(vars), i, k);
  }

  /** Every sent name survives the form encoding with its value. */
  lemma SentNamesAreUnwrapped(vars: Pairs)
    requires DistinctKeys(vars)
    requires forall i :: 0 <= i < |vars| ==> PlainName(vars[i].0)
    ensures forall i :: 0 <= i < |vars| ==> vars[i].0 in Unwrap(WrapAll(vars)) && Unwrap(WrapAll(vars))[vars[i].0] == vars[i].1
  {
    WrapAllFacts(vars);
    WrapAllDistinct(vars);
    UnwrapValues(WrapAll(vars));
  }

  /** Unwrapping the form encoding of plain names gives back the sent mapping. */
  lemma UnwrapWrapAll(vars: Pairs)
    requires DistinctKeys(vars)
    requires forall i :: 0 <= i < |vars| ==> PlainName(vars[i].0)
    ensures Unwrap(WrapAll(vars)) == AsMap(vars)
  {
    var a := Unwrap(WrapAll(vars));
    var b := AsMap(vars);
    SentNamesAreUnwrapped(vars);
    forall k | k in a
      ensures k in b && a[k] == b[k]
    {
      UnwrappedNamesAreSent(vars, k);
    }
    forall k | k in b
      ensures k in a
    {
      var i :| 0 <= i < |vars| && vars[i].0 == k;
    }
    assert a == b;
  }

  /**
   * A form submission and an API call carrying the same plain-named variables
   * normalise to the same mapping.
   */
  lemma {:induction false} FormAndApiAgree(vars: Pairs)
    requires DistinctKeys(vars)
    requires forall i :: 0 <= i < |vars| ==> PlainName(vars[i].0)
    ensures DistinctKeys(WrapAll(vars))
    ensures Normalise(WrapAll(vars)) == Normalise(vars)
  {
    WrapAllDistinct(vars);
    WrapAllFacts(vars);
    if vars == [] {
      assert WrapAll(vars) == [];
    } else {
      assert IsWrapped(WrapAll(vars)[0].0);
      UnwrapWrapAll(vars);
    }
  }

  /** One declared variable of a command: `{name, required}` in the command catalog. */
  datatype VariableSpec = VariableSpec(name: string, required: bool)

  /** Line 85: the variable is present with a non-empty value. */
  predicate Supplied(cleaned: map<string, string>, n: string) {
    n in cleaned && cleaned[n] != ""
  }

  /** Declared variable `i` is required and not supplied. */
  predicate Lacking(specs: seq<VariableSpec>, cleaned: map<string, string>, i: int)
    requires 0 <= i < |specs|
  {
    specs[i].required && !Supplied(cleaned, specs[i].name)
  }

  /** Declared variable `i` is the first that is required and not supplied. */
  predicate FirstLacking(specs: seq<VariableSpec>, cleaned: map<string, string>, i: int) {
    && 0 <= i < |specs|
    && Lacking(specs, cleaned, i)
    && forall j :: 0 <= j < i ==> !Lacking(specs, cleaned, j)
  }

  /**
   * `validate_variables`: the declared variables are checked in order and the
   * first required one that is missing or empty is reported. Optional and
   * undeclared variables never cause a failure.
   */
  function FirstMissing(specs: seq<VariableSpec>, cleaned: map<string, string>): (r: Option<string>)
    ensures r.None? <==> forall i :: 0 <= i < |specs| ==> !Lacking(specs, cleaned, i)
    ensures r.Some? ==> exists i :: FirstLacking(specs, cleaned, i) && specs[i].name == r.value
  {
    if specs == [] then None
    else if specs[0].required && !Supplied(cleaned, specs[0].name) then
      assert FirstLacking(specs, cleaned, 0);
      Some(specs[0].name)
    else
      var r := FirstMissing(specs[1..], cleaned);
      assert !Lacking(specs, cleaned, 0);
      assert forall i :: 1 <= i < |specs| ==> (Lacking(specs, cleaned, i) <==> Lacking(specs[1..], cleaned, i - 1));
      assert r.Some? ==> exists i :: FirstLacking(specs, cleaned, i) && specs[i].name == r.value by {
        if r.Some? {
          var i :| FirstLacking(specs[1..], cleaned, i) && specs[1..][i].name == r.value;
          assert FirstLacking(specs, cleaned, i + 1);
        }
      }
      r
  }
}
