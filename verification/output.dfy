/**
 * Output shaping after the driver call (app/commands.py:153-159): a mapping
 * answer is narrowed to the entry for the sent command, a list answer is
 * joined with newlines, anything else is turned into text.
 */
module Output {

  /** What the driver's `cli` call can return. */
  datatype Raw = Text(text: string) | Lines(lines: seq<string>) | Mapping(entries: map<string, string>)

  /** `"\n".join(lines)`. */
  function Join(lines: seq<string>): string {
    if lines == [] then []
    else if |lines| == 1 then lines[0]
    else lines[0] + "\n" + Join(lines[1..])
  }

  /** `s.split("\n")`: the pieces between newlines, always at least one. */
  function Split(s: string): (r: seq<string>)
    ensures |r| >= 1
    decreases |s|
  {
    if s == [] then [[]]
    else if s[0] == '\n' then [[]] + Split(s[1..])
    else
      var r := Split(s[1..]);
      [[s[0]] + r[0]] + r[1..]
  }

  /** Text without newlines in front of the rest extends the first piece of the rest. */
  lemma {:induction false} SplitPrefix(a: string, rest: string)
    requires '\n' !in a
    ensures Split(a + rest) == [a + Split(rest)[0]] + Split(rest)[1..]
    decreases |a|
  {
    if a == [] {
      assert a + rest == rest;
      var r := Split(rest);
      assert [] + r[0] == r[0];
      assert r == [r[0]] + r[1..];
    } else {
      assert a[0] in a;
      assert (a + rest)[0] == a[0];
      assert (a + rest)[1..] == a[1..] + rest;
      assert forall c :: c in a[1..] ==> c in a;
      SplitPrefix(a[1..], rest);
      assert [a[0]] + (a[1..] + Split(rest)[0]) == a + Split(rest)[0];
    }
  }

  /** Splitting joined lines gives the lines back when none of them holds a newline. */
  lemma {:induction false} SplitJoin(lines: seq<string>)
    requires lines != []
    requires forall i :: 0 <= i < |lines| ==> '\n' !in lines[i]
    ensures Split(Join(lines)) == lines
    decreases |lines|
  {
    if |lines| == 1 {
      SplitPrefix(lines[0], []);
      assert lines[0] + [] == lines[0];
      assert Split([]) == [[]];
    } else {
      var tail := Join(lines[1..]);
      SplitJoin(lines[1..]);
      assert Join(lines) == lines[0] + ("\n" + tail);
      SplitPrefix(lines[0], "\n" + tail);
      assert ("\n" + tail)[1..] == tail;
      assert Split("\n" + tail) == [[]] + lines[1..];
      assert lines[0] + [] == lines[0];
      assert lines == [lines[0]] + lines[1..];
    }
  }

  /**
   * Lines 154-159. `stringify` stands for Python's `str` of the whole answer,
   * used when a mapping has no entry for the sent command. A list answer is
   * laid out one line per element, so the lines can be read back.
   */
  function Shape(raw: Raw, command: string, stringify: Raw -> string): (out: string)
    ensures raw.Text? ==> out == raw.text
    ensures raw.Mapping? && command in raw.entries ==> out == raw.entries[command]
    ensures raw.Mapping? && command !in raw.entries ==> out == stringify(raw)
    ensures raw.Lines? && raw.lines == [] ==> out == ""
    ensures raw.Lines? && raw.lines != [] && (forall i :: 0 <= i < |raw.lines| ==> '\n' !in raw.lines[i]) ==>
              Split(out) == raw.lines
  {
    match raw
    case Mapping(m) => if command in m then m[command] else stringify(raw)
    case Lines(ls) =>
      if ls != [] && (forall i :: 0 <= i < |ls| ==> '\n' !in ls[i]) then SplitJoin(ls); Join(ls)
      else Join(ls)
    case Text(s) => s
  }
}
