/** The todo form's submit rule: the input is trimmed; a blank input is
    ignored, anything else is handed to `onAdd` once and the field is
    cleared. */
module TodoForm {
  import opened Wrappers
  import TodoApp

  /** The characters `String.prototype.trim` removes: the ECMAScript
      WhiteSpace and LineTerminator code points. All of them lie in the Basic
      Multilingual Plane, and no letter or digit is among them. */
  predicate IsWhitespace(c: char)
    ensures IsWhitespace(c) ==> c as int < 0x1_0000
    ensures ('a' <= c <= 'z') || ('A' <= c <= 'Z') || ('0' <= c <= '9') ==> !IsWhitespace(c)
  {
    c == '\t' || c == '\n' || c == '\U{B}' || c == '\U{C}' || c == '\r' || c == ' '
    || c == '\U{A0}' || c == '\U{1680}' || ('\U{2000}' <= c <= '\U{200A}')
    || c == '\U{2028}' || c == '\U{2029}' || c == '\U{202F}' || c == '\U{205F}'
    || c == '\U{3000}' || c == '\U{FEFF}'
  }

  predicate AllWhitespace(s: string) {
    forall i :: 0 <= i < |s| ==> IsWhitespace(s[i])
  }

  /** Neither end of `s` is whitespace. */
  predicate IsTrimmed(s: string) {
    |s| == 0 || (!IsWhitespace(s[0]) && !IsWhitespace(s[|s| - 1]))
  }

  /** Number of whitespace characters `s` starts with. */
  function LeadingWhitespace(s: string): (n: nat)
    ensures n <= |s|
    ensures AllWhitespace(s[..n])
    ensures n < |s| ==> !IsWhitespace(s[n])
  {
    if |s| == 0 || !IsWhitespace(s[0]) then 0
    else
      var n := LeadingWhitespace(s[1..]);
      assert s[..n + 1] == [s[0]] + s[1..][..n];
      n + 1
  }

  /** Number of whitespace characters `s` ends with. */
  function TrailingWhitespace(s: string): (n: nat)
    ensures n <= |s|
    ensures AllWhitespace(s[|s| - n..])
    ensures n < |s| ==> !IsWhitespace(s[|s| - 1 - n])
  {
    if |s| == 0 || !IsWhitespace(s[|s| - 1]) then 0
    else
      var init := s[..|s| - 1];
      var n := TrailingWhitespace(init);
      assert s[|s| - (n + 1)..] == init[|init| - n..] + [s[|s| - 1]];
      n + 1
  }

  /** `s` is `r` with only whitespace added at either end. */
  ghost predicate PaddedBy(s: string, r: string) {
    exists a, b :: 0 <= a <= b <= |s| && s[a..b] == r && AllWhitespace(s[..a]) && AllWhitespace(s[b..])
  }

  /** `String.prototype.trim`: strips whitespace from both ends; the result
      is blank exactly when the input is all whitespace. */
  function Trim(s: string): (r: string)
    ensures IsTrimmed(r)
    ensures PaddedBy(s, r)
    ensures r == [] <==> AllWhitespace(s)
  {
    var a := LeadingWhitespace(s);
    var rest := s[a..];
    var n := TrailingWhitespace(rest);
    assert |rest| > 0 ==> rest[0] == s[a];
    TrimPadded(s, a, n);
    TrimEnds(rest, n);
    TrimBlank(s, a, n);
    rest[..|rest| - n]
  }

  /** The slice between `a` leading and `n` trailing whitespace characters
      is `s` without that padding. */
  lemma TrimPadded(s: string, a: nat, n: nat)
    requires a <= |s| && n <= |s| - a
    requires AllWhitespace(s[..a]) && AllWhitespace(s[a..][|s| - a - n..])
    ensures PaddedBy(s, s[a..][..|s| - a - n])
  {
    var r := s[a..][..|s| - a - n];
    assert s[a..a + |r|] == r;
    assert s[a + |r|..] == s[a..][|s| - a - n..];
  }

  /** Neither end of the slice is whitespace when the characters just inside
      the cut are not. */
  lemma TrimEnds(rest: string, n: nat)
    requires n <= |rest|
    requires |rest| > 0 ==> !IsWhitespace(rest[0])
    requires n < |rest| ==> !IsWhitespace(rest[|rest| - 1 - n])
    ensures IsTrimmed(rest[..|rest| - n])
  {
    var r := rest[..|rest| - n];
    if r != [] {
      assert r[0] == rest[0];
      assert r[|r| - 1] == rest[|rest| - 1 - n];
    }
  }

  /** The slice is blank exactly when the input is all whitespace. */
  lemma TrimBlank(s: string, a: nat, n: nat)
    requires a <= |s| && n <= |s| - a
    requires AllWhitespace(s[..a]) && AllWhitespace(s[a..][|s| - a - n..])
    requires a < |s| ==> !IsWhitespace(s[a])
    ensures s[a..][..|s| - a - n] == [] <==> AllWhitespace(s)
  {
    var rest := s[a..];
    if n == |rest| {
      assert s == s[..a] + rest;
      assert rest[|rest| - n..] == rest;
      AllWhitespaceConcat(s[..a], rest);
    } else {
      assert !IsWhitespace(s[a]);
    }
  }

  lemma AllWhitespaceConcat(x: string, y: string)
    requires AllWhitespace(x) && AllWhitespace(y)
    ensures AllWhitespace(x + y)
  {
    forall i | 0 <= i < |x + y|
      ensures IsWhitespace((x + y)[i])
    {
      if i < |x| {
        assert (x + y)[i] == x[i];
      } else {
        assert (x + y)[i] == y[i - |x|];
      }
    }
  }

  /** Trimming a value without surrounding whitespace returns it unchanged,
      so trimming is idempotent. */
  lemma TrimTrimmed(s: string)
    requires IsTrimmed(s)
    ensures Trim(s) == s
  {
    assert LeadingWhitespace(s) == 0;
    assert TrailingWhitespace(s) == 0;
  }

  lemma TrimIdempotent(s: string)
    ensures Trim(Trim(s)) == Trim(s)
  {
    TrimTrimmed(Trim(s));
  }

  /** The outcome of `handleSubmit`: the text passed to `onAdd`, if it was
      called, and the new value of the input field. */
  datatype Submission = Submission(added: Option<string>, input: string)

  /** `handleSubmit` on the current field value. */
  function Submit(input: string): (r: Submission)
    ensures AllWhitespace(input) ==> r.added.None? && r.input == input
    ensures !AllWhitespace(input) ==> r.added == Some(Trim(input)) && r.input == ""
    ensures r.added.Some? ==> r.added.value != [] && IsTrimmed(r.added.value) && PaddedBy(input, r.added.value)
  {
    var t := Trim(input);
    if t != [] then Submission(Some(t), "") else Submission(None, input)
  }

  /** A value already free of surrounding whitespace is added verbatim. */
  lemma SubmitTrimmed(input: string)
    requires input != [] && IsTrimmed(input)
    ensures Submit(input) == Submission(Some(input), "")
  {
    TrimTrimmed(input);
  }

  /** The form wired to the app's `addTodo`: the list and the field after a
      submit, with `id` the fresh id the add would draw. */
  function SubmitTodo(todos: seq<TodoApp.Todo>, input: string, id: string): (r: (seq<TodoApp.Todo>, string))
    ensures AllWhitespace(input) ==> r == (todos, input)
    ensures !AllWhitespace(input) ==>
      r.1 == "" && |r.0| == |todos| + 1 && r.0[..|todos|] == todos &&
      r.0[|todos|] == TodoApp.Todo(id, Trim(input), false)
  {
    var s := Submit(input);
    match s.added
    case None => (todos, s.input)
    case Some(text) => (TodoApp.AddTodo(todos, text, id), s.input)
  }
}
