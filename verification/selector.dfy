/** The command selector of `Program.cs`: the line read from the console is
    trimmed and lower-cased, then compared against a command number or a
    command word. */
module Selector {

  /** What `Console.ReadLine()` returns: a line, or null at end of input. */
  datatype ConsoleLine = EndOfInput | Line(text: string)

  /** The four command kinds the menu offers. */
  datatype Op = Increment | Decrement | Double | RandomAdd

  /** The outcome of reading the selector. */
  datatype Selection = Run(op: Op) | UndoLast | Invalid

  /** `Char.IsWhiteSpace`: the characters of Unicode category Zs, Zl and Zp,
      plus U+0009 to U+000D, U+0085 and U+00A0. */
  predicate IsWhiteSpace(c: char) {
    var n := c as int;
    || 0x09 <= n <= 0x0D || n == 0x20 || n == 0x85 || n == 0xA0
    || n == 0x1680 || 0x2000 <= n <= 0x200A || n == 0x2028 || n == 0x2029
    || n == 0x202F || n == 0x205F || n == 0x3000
  }

  /** Leading white space removed. */
  function TrimStart(s: string): (r: string)
    ensures |r| <= |s| && r == s[|s| - |r|..]
    ensures forall i :: 0 <= i < |s| - |r| ==> IsWhiteSpace(s[i])
    ensures |r| > 0 ==> !IsWhiteSpace(r[0])
  {
    if |s| > 0 && IsWhiteSpace(s[0]) then TrimStart(s[1..]) else s
  }

  /** Trailing white space removed. */
  function TrimEnd(s: string): (r: string)
    ensures |r| <= |s| && r == s[..|r|]
    ensures forall i :: |r| <= i < |s| ==> IsWhiteSpace(s[i])
    ensures |r| > 0 ==> !IsWhiteSpace(r[|r| - 1])
  {
    if |s| > 0 && IsWhiteSpace(s[|s| - 1]) then TrimEnd(s[..|s| - 1]) else s
  }

  /** `String.Trim()`: white space removed from both ends. */
  function Trim(s: string): string {
    TrimEnd(TrimStart(s))
  }

  function LowerChar(c: char): char {
    if 'A' <= c <= 'Z' then (c as int + 32) as char else c
  }

  /** `String.ToLower()` under a culture where ASCII `I` lower-cases to `i`.
      Only `A` to `Z` are mapped; under a Turkish or Azerbaijani culture `I`
      becomes dotless `ı` instead, which this function does not model. */
  function ToLower(s: string): (r: string)
    ensures |r| == |s|
    ensures forall i :: 0 <= i < |s| ==> r[i] == LowerChar(s[i])
  {
    if |s| == 0 then [] else [LowerChar(s[0])] + ToLower(s[1..])
  }

  /** Strip surrounding white space from a line, then lower-case it. */
  function Normalize(s: string): string {
    ToLower(Trim(s))
  }

  /** The menu number of each command kind. */
  function Code(op: Op): string {
    match op
    case Increment => "1"
    case Decrement => "2"
    case Double => "3"
    case RandomAdd => "4"
  }

  /** The command word the selector accepts for each command kind. */
  function Word(op: Op): string {
    match op
    case Increment => "increment"
    case Decrement => "decrement"
    case Double => "double"
    case RandomAdd => "random"
  }

  /** The if-else chain that picks the command, in the source's order,
      applied to the normalized line. */
  function Classify(w: string): Selection {
      if w == "1" || w == "increment" then Run(Increment)
      else if w == "2" || w == "decrement" then Run(Decrement)
      else if w == "3" || w == "double" then Run(Double)
      else if w == "4" || w == "random" then Run(RandomAdd)
      else if w == "5" || w == "undo" then UndoLast
      else Invalid
  }

  /** A null line compares unequal to every literal, so it is invalid. */
  function Select(line: ConsoleLine): Selection {
    if line.EndOfInput? then Invalid else Classify(Normalize(line.text))
  }

  /** A command kind is selected exactly by its number or its word. */
  lemma SelectRun(line: ConsoleLine, op: Op)
    ensures Select(line) == Run(op)
        <==> line.Line? && (Normalize(line.text) == Code(op) || Normalize(line.text) == Word(op))
  {
    if line.Line? {
      ClassifyRun(Normalize(line.text), op);
    }
  }

  lemma ClassifyRun(w: string, op: Op)
    ensures Classify(w) == Run(op) <==> w == Code(op) || w == Word(op)
  {
    match op
    case Increment =>
    case Decrement =>
    case Double =>
      assert "double"[0] != "random"[0];
    case RandomAdd =>
      assert "double"[0] != "random"[0];
  }

  /** Undo is selected exactly by "5" or "undo". */
  lemma SelectUndo(line: ConsoleLine)
    ensures Select(line) == UndoLast
        <==> line.Line? && (Normalize(line.text) == "5" || Normalize(line.text) == "undo")
  {
    if line.Line? {
      ClassifyUndo(Normalize(line.text));
    }
  }

  lemma ClassifyUndo(w: string)
    ensures Classify(w) == UndoLast <==> w == "5" || w == "undo"
  {
  }

  /** Every text the selector accepts, after normalization. */
  const Accepted: set<string> :=
    {"1", "2", "3", "4", "5", "increment", "decrement", "double", "random", "undo"}

  /** Null input, and every line whose normalized text is not one of the
      accepted numbers and words, is invalid. */
  lemma SelectInvalid(line: ConsoleLine)
    ensures Select(line) == Invalid <==> line.EndOfInput? || Normalize(line.text) !in Accepted
  {
    if line.Line? {
      ClassifyInvalid(Normalize(line.text));
    }
  }

  lemma ClassifyInvalid(w: string)
    ensures Classify(w) == Invalid <==> w !in Accepted
  {
    ClassifyRun(w, Increment);
    ClassifyRun(w, Decrement);
    ClassifyRun(w, Double);
    ClassifyRun(w, RandomAdd);
  }

  /** The menu lists the command as "randadd", but that word selects
      nothing, in any mix of upper and lower case. */
  lemma RandaddIsInvalid(s: string)
    requires ToLower(s) == "randadd"
    ensures Select(Line(s)) == Invalid
  {
    assert LowerChar(s[0]) == 'r' && LowerChar(s[6]) == 'd';
    NormalizeUnpadded(s);
  }

  /** Only "4" and "random", in any case, select RandomAdd. */
  lemma RandomSelectsRandomAdd(s: string)
    requires ToLower(s) == "random"
    ensures Select(Line(s)) == Run(RandomAdd)
  {
    assert LowerChar(s[0]) == 'r' && LowerChar(s[5]) == 'm';
    NormalizeUnpadded(s);
  }

  /** Surrounding white space never changes the selection: a padded line
      selects what its trimmed, lower-cased text selects. Case is ignored
      only as far as `ToLower` maps it (ASCII letters, `I` to `i`). */
  lemma {:induction false} SelectIgnoresCaseAndPadding(pre: string, s: string, post: string)
    requires forall i :: 0 <= i < |pre| ==> IsWhiteSpace(pre[i])
    requires forall i :: 0 <= i < |post| ==> IsWhiteSpace(post[i])
    ensures Select(Line(pre + s + post)) == Select(Line(ToLower(Trim(s))))
  {
    NormalizeIdempotent(s);
    TrimPadding(pre, s, post);
  }

  lemma {:induction false} TrimStartPadding(pre: string, s: string)
    requires forall i :: 0 <= i < |pre| ==> IsWhiteSpace(pre[i])
    ensures TrimStart(pre + s) == TrimStart(s)
    decreases |pre|
  {
    if |pre| > 0 {
      assert (pre + s)[1..] == pre[1..] + s;
      TrimStartPadding(pre[1..], s);
    } else {
      assert pre + s == s;
    }
  }

  lemma {:induction false} TrimEndPadding(s: string, post: string)
    requires forall i :: 0 <= i < |post| ==> IsWhiteSpace(post[i])
    ensures TrimEnd(s + post) == TrimEnd(s)
    decreases |post|
  {
    if |post| > 0 {
      var shorter := post[..|post| - 1];
      assert (s + post)[..|s + post| - 1] == s + shorter;
      TrimEndPadding(s, shorter);
    } else {
      assert s + post == s;
    }
  }

  /** Trailing white space passes through `TrimStart` unless the whole
      string is white space. */
  lemma {:induction false} TrimStartAppend(s: string, post: string)
    requires forall i :: 0 <= i < |post| ==> IsWhiteSpace(post[i])
    ensures TrimStart(s + post) == if TrimStart(s) == [] then [] else TrimStart(s) + post
    decreases |s|
  {
    if |s| == 0 {
      assert s + post == post;
    } else if IsWhiteSpace(s[0]) {
      assert (s + post)[1..] == s[1..] + post;
      TrimStartAppend(s[1..], post);
    } else {
      assert (s + post)[0] == s[0];
    }
  }

  /** A white space prefix or suffix disappears under `Trim`. */
  lemma {:induction false} TrimPadding(pre: string, s: string, post: string)
    requires forall i :: 0 <= i < |pre| ==> IsWhiteSpace(pre[i])
    requires forall i :: 0 <= i < |post| ==> IsWhiteSpace(post[i])
    ensures Trim(pre + s + post) == Trim(s)
  {
    assert pre + s + post == pre + (s + post);
    TrimStartPadding(pre, s + post);
    TrimStartAppend(s, post);
    if TrimStart(s) != [] {
      TrimEndPadding(TrimStart(s), post);
    }
  }

  /** A string with no white space at either end only has its case changed. */
  lemma NormalizeUnpadded(s: string)
    requires |s| > 0 && !IsWhiteSpace(s[0]) && !IsWhiteSpace(s[|s| - 1])
    ensures Normalize(s) == ToLower(s)
  {
    TrimStartNonBlank(s);
  }

  /** A string that starts with a non-white-space character is left alone. */
  lemma TrimStartNonBlank(s: string)
    requires |s| == 0 || !IsWhiteSpace(s[0])
    ensures TrimStart(s) == s
  {
  }

  /** Normalizing twice is normalizing once. */
  lemma {:induction false} NormalizeIdempotent(s: string)
    ensures Normalize(Normalize(s)) == Normalize(s)
  {
    var t := Trim(s);
    var l := ToLower(t);
    TrimEndsNonBlank(s);
    LowerKeepsWhiteSpace(t);
    TrimStartNonBlank(l);
    TrimEndNonBlank(l);
    assert Trim(l) == l;
    ToLowerIdempotent(t);
  }

  /** A trimmed string starts and ends with non-white-space characters. */
  lemma TrimEndsNonBlank(s: string)
    ensures |Trim(s)| > 0 ==> !IsWhiteSpace(Trim(s)[0]) && !IsWhiteSpace(Trim(s)[|Trim(s)| - 1])
  {
    var u := TrimStart(s);
    var t := TrimEnd(u);
    if |t| > 0 {
      assert t[0] == u[0];
    }
  }

  /** A string that ends with a non-white-space character is left alone. */
  lemma TrimEndNonBlank(s: string)
    requires |s| == 0 || !IsWhiteSpace(s[|s| - 1])
    ensures TrimEnd(s) == s
  {
  }

  lemma ToLowerIdempotent(s: string)
    ensures ToLower(ToLower(s)) == ToLower(s)
  {
    var l := ToLower(s);
    assert forall i :: 0 <= i < |l| ==> LowerChar(l[i]) == l[i];
  }

  /** Lower-casing touches no white space and creates none. */
  lemma LowerKeepsWhiteSpace(s: string)
    ensures forall i :: 0 <= i < |s| ==> (IsWhiteSpace(ToLower(s)[i]) <==> IsWhiteSpace(s[i]))
  {
  }
}
